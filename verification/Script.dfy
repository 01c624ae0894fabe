/** Straight-line builder scripts: the program the graph macro generates. A script can be run on a
    builder, giving a graph, or read directly as a computation on values; the two agree, with and
    without constant deduplication. */
module Script {
  import opened LittleEndian
  import opened FheTypes
  import opened GraphFormat
  import opened GraphBuilding
  import opened Evaluator

  /** A builder call; operands are names of earlier results. */
  datatype Call =
    | AddInput(ty: byte)
    | AddPlaintextInput(ty: byte)
    | AddConstant(ty: byte, value: nat)
    | AddConstantBytes(ty: byte, bytes: seq<byte>)
    | AddUnaryOp(op: byte, ty: byte, a: string)
    | AddBinaryOp(op: byte, ty: byte, a: string, b: string)
    | AddTernaryOp(op: byte, ty: byte, a: string, b: string, c: string)

  /** `let name = call;`, `let name = source;` or `add_output(ty, source);` */
  datatype Stmt =
    | Let(name: string, call: Call)
    | Alias(name: string, source: string)
    | Output(ty: byte, source: string)

  function Operands(call: Call): set<string> {
    match call
    case AddInput(_) => {}
    case AddPlaintextInput(_) => {}
    case AddConstant(_, _) => {}
    case AddConstantBytes(_, _) => {}
    case AddUnaryOp(_, _, a) => {a}
    case AddBinaryOp(_, _, a, b) => {a, b}
    case AddTernaryOp(_, _, a, b, c) => {a, b, c}
  }

  function CallType(call: Call): byte {
    call.ty
  }

  /** Types exist, and constant bytes have the width `add_constant_bytes` demands. */
  predicate CallOk(call: Call) {
    CallType(call) <= 44 && (call.AddConstantBytes? ==> |call.bytes| == ByteWidth(call.ty))
  }

  predicate StmtOk(s: Stmt, names: set<string>) {
    match s
    case Let(_, call) => CallOk(call) && Operands(call) <= names
    case Alias(_, source) => source in names
    case Output(ty, source) => ty <= 44 && source in names
  }

  function Binds(s: Stmt): set<string> {
    if s.Output? then {} else {s.name}
  }

  /** Every statement is well-formed and refers only to names bound before it. */
  predicate Closed(script: seq<Stmt>, names: set<string>) {
    script == [] || (StmtOk(script[0], names) && Closed(script[1..], names + Binds(script[0])))
  }

  // ---- as a computation on values ----

  datatype Values<V> = Values(regs: map<string, V>, inputs: seq<V>, outs: seq<V>)

  function ConstantOf(call: Call): seq<byte>
    requires call.AddConstant? || call.AddConstantBytes?
  {
    match call
    case AddConstant(ty, value) => ConstantBytesOf(ty, value)
    case AddConstantBytes(_, bytes) => bytes
  }

  function CallValue<V>(eng: Engine<V>, call: Call, st: Values<V>): Result<V, EvalError>
    requires CallOk(call) && Operands(call) <= st.regs.Keys
  {
    match call
    case AddInput(_) => if st.inputs == [] then Err(InputIndexPanic) else Ok(st.inputs[0])
    case AddPlaintextInput(_) => if st.inputs == [] then Err(InputIndexPanic) else Ok(st.inputs[0])
    case AddConstant(ty, _) => Ok(eng.constant(ty, ConstantOf(call)))
    case AddConstantBytes(ty, _) => Ok(eng.constant(ty, ConstantOf(call)))
    case AddUnaryOp(op, ty, a) => FromEngine(eng.unary(op, st.regs[a], ty))
    case AddBinaryOp(op, ty, a, b) => FromEngine(eng.binary(op, st.regs[a], st.regs[b], ty))
    case AddTernaryOp(op, ty, a, b, c) => FromEngine(eng.ternary(op, st.regs[a], st.regs[b], st.regs[c], ty))
  }

  predicate CallTakesInput(call: Call) {
    call.AddInput? || call.AddPlaintextInput?
  }

  function StepValues<V>(eng: Engine<V>, s: Stmt, st: Values<V>): (r: Result<Values<V>, EvalError>)
    requires StmtOk(s, st.regs.Keys)
    ensures r.Ok? ==> r.value.regs.Keys == st.regs.Keys + Binds(s)
  {
    match s
    case Let(name, call) =>
      (match CallValue(eng, call, st)
       case Err(e) => Err(e)
       case Ok(v) =>
         Ok(Values(st.regs[name := v], if CallTakesInput(call) then st.inputs[1..] else st.inputs, st.outs)))
    case Alias(name, source) => Ok(st.(regs := st.regs[name := st.regs[source]]))
    case Output(_, source) => Ok(st.(outs := st.outs + [st.regs[source]]))
  }

  function Interpret<V>(eng: Engine<V>, script: seq<Stmt>, st: Values<V>): (r: Result<Values<V>, EvalError>)
    requires Closed(script, st.regs.Keys)
  {
    if script == [] then Ok(st)
    else
      match StepValues(eng, script[0], st)
      case Err(e) => Err(e)
      case Ok(next) => Interpret(eng, script[1..], next)
  }

  // ---- as a run of the builder ----

  datatype Built = Built(g: Graph, regs: map<string, u16>)

  function CallBuild(call: Call, st: Built, dedup: bool): (Graph, u16)
    requires Operands(call) <= st.regs.Keys
  {
    match call
    case AddInput(ty) => (Push(st.g, InputNode(ty)), NextIndex(st.g))
    case AddPlaintextInput(ty) => (Push(st.g, PlaintextInputNode(ty)), NextIndex(st.g))
    case AddConstant(ty, _) => GraphBuilding.AddConstantBytes(st.g, ty, ConstantOf(call), dedup)
    case AddConstantBytes(ty, _) => GraphBuilding.AddConstantBytes(st.g, ty, ConstantOf(call), dedup)
    case AddUnaryOp(op, ty, a) => (Push(st.g, OpNode(op, ty, st.regs[a], NONE, NONE)), NextIndex(st.g))
    case AddBinaryOp(op, ty, a, b) => (Push(st.g, OpNode(op, ty, st.regs[a], st.regs[b], NONE)), NextIndex(st.g))
    case AddTernaryOp(op, ty, a, b, c) =>
      (Push(st.g, OpNode(op, ty, st.regs[a], st.regs[b], st.regs[c])), NextIndex(st.g))
  }

  function StepBuild(s: Stmt, st: Built, dedup: bool): (r: Built)
    requires StmtOk(s, st.regs.Keys)
    ensures r.regs.Keys == st.regs.Keys + Binds(s)
    ensures Extends(st.g, r.g)
  {
    match s
    case Let(name, call) => var (g, index) := CallBuild(call, st, dedup); Built(g, st.regs[name := index])
    case Alias(name, source) => st.(regs := st.regs[name := st.regs[source]])
    case Output(ty, source) => st.(g := Push(st.g, OutputNode(ty, st.regs[source])))
  }

  function Build(script: seq<Stmt>, st: Built, dedup: bool): (r: Built)
    requires Closed(script, st.regs.Keys)
    ensures Extends(st.g, r.g)
  {
    if script == [] then st else Build(script[1..], StepBuild(script[0], st, dedup), dedup)
  }

  // ---- simulation ----

  /** A builder state and a value state after the same statements: the graph evaluates, each name
      holds the index of a node with the name's value, and inputs and outputs line up. */
  ghost predicate Simulates<V>(eng: Engine<V>, inputs: seq<V>, b: Built, v: Values<V>)
  {
    var r := Eval(eng, b.g.nodes, b.g.constants, inputs);
    && WellFormed(b.g)
    && r.Ok?
    && b.regs.Keys == v.regs.Keys
    && (forall x :: x in b.regs ==> b.regs[x] < |r.value| && r.value[b.regs[x]] == v.regs[x])
    && InputsTaken(b.g.nodes) <= |inputs| && v.inputs == inputs[InputsTaken(b.g.nodes)..]
    && v.outs == Outputs(b.g.nodes, r.value)
  }

  /** Room for node indices and constant offsets. */
  predicate Fits(g: Graph) {
    |g.nodes| < 0xFFFF && |g.constants| < 0x1_0000
  }

  /** Evaluation of a graph with one more node behind it. */
  lemma EvalPush<V>(eng: Engine<V>, g: Graph, n: Node, inputs: seq<V>)
    ensures Eval(eng, Push(g, n).nodes, g.constants, inputs)
         == EvalNext(eng, Eval(eng, g.nodes, g.constants, inputs), n, g.constants, inputs, InputsTaken(g.nodes))
  {
    assert Push(g, n).nodes[..|g.nodes|] == g.nodes;
  }

  function Evaluated<V>(eng: Engine<V>, g: Graph, inputs: seq<V>): (r: Result<seq<V>, EvalError>)
    ensures r.Ok? ==> |r.value| == |g.nodes|
  {
    Eval(eng, g.nodes, g.constants, inputs)
  }

  lemma PerformTakesInput<V>(eng: Engine<V>, n: Node, vals: seq<V>, constants: seq<byte>, inputs: seq<V>, nextInput: nat)
    ensures Perform(eng, n, vals, constants, inputs, nextInput).Ok? && TakesInput(n) ==> nextInput < |inputs|
  {
  }

  /** Appending a node whose value is known extends the simulation by that value. */
  lemma PushSimulates<V>(eng: Engine<V>, inputs: seq<V>, b: Built, v: Values<V>, n: Node)
    requires Simulates(eng, inputs, b, v)
    requires NodeOk(n, |b.g.nodes|, |b.g.constants|) && n.kind != KIND_CONSTANT
    ensures var vals := Evaluated(eng, b.g, inputs).value;
            var r := Perform(eng, n, vals, b.g.constants, inputs, InputsTaken(b.g.nodes));
            var b' := b.(g := Push(b.g, n));
            && (r.Err? ==> WellFormed(b'.g) && Evaluated(eng, b'.g, inputs) == Err(r.error))
            && (r.Ok? ==>
              && Evaluated(eng, b'.g, inputs) == Ok(vals + [r.value])
              && Simulates(eng, inputs, b', Values(v.regs, if TakesInput(n) then v.inputs[1..] else v.inputs,
                                                   v.outs + if n.kind == KIND_OUTPUT then [r.value] else [])))
  {
    hide WellFormed, Eval, NodeOk, Perform, NoDuplicates;
    var vals := Evaluated(eng, b.g, inputs).value;
    var r := Perform(eng, n, vals, b.g.constants, inputs, InputsTaken(b.g.nodes));
    PushKeepsWellFormed(b.g, n);
    EvalPush(eng, b.g, n, inputs);
    PerformTakesInput(eng, n, vals, b.g.constants, inputs, InputsTaken(b.g.nodes));
    var nodes' := Push(b.g, n).nodes;
    assert nodes'[..|b.g.nodes|] == b.g.nodes;
    if r.Ok? {
      assert (vals + [r.value])[..|vals|] == vals;
    }
  }

  /** Naming the newest node. */
  lemma BindNewest<V>(eng: Engine<V>, inputs: seq<V>, b: Built, v: Values<V>, name: string, index: u16, value: V)
    requires Simulates(eng, inputs, b, v)
    requires index < |b.g.nodes| && Evaluated(eng, b.g, inputs).value[index] == value
    ensures Simulates(eng, inputs, b.(regs := b.regs[name := index]), v.(regs := v.regs[name := value]))
  {
    hide WellFormed, Eval, Outputs, InputsTaken;
  }

  /** A constant node evaluates to the constant of its bytes. */
  lemma ConstantNodeValue<V>(eng: Engine<V>, g: Graph, inputs: seq<V>, i: nat)
    requires WellFormed(g) && Evaluated(eng, g, inputs).Ok?
    requires i < |g.nodes| && g.nodes[i].kind == KIND_CONSTANT
    ensures Evaluated(eng, g, inputs).value[i] == eng.constant(g.nodes[i].ty, ConstantAt(g, i))
  {
    hide Eval, Tiled, ConstantBytes;
    var front := g.nodes[..i + 1];
    EvalPrefix(eng, g.nodes, g.constants, inputs, i + 1);
    EvalPrefix(eng, g.nodes, g.constants, inputs, i);
    assert front[..i] == g.nodes[..i];
    LastValue(eng, front, g.constants, inputs);
    assert NodeOk(g.nodes[i], i, |g.constants|);
  }

  /** The last value of an evaluation is the last node performed on the values before it. */
  lemma LastValue<V>(eng: Engine<V>, nodes: seq<Node>, constants: seq<byte>, inputs: seq<V>)
    requires nodes != [] && Eval(eng, nodes, constants, inputs).Ok?
    ensures var last := |nodes| - 1;
            var before := Eval(eng, nodes[..last], constants, inputs);
            before.Ok? && Perform(eng, nodes[last], before.value, constants, inputs, InputsTaken(nodes[..last]))
                          == Ok(Eval(eng, nodes, constants, inputs).value[last])
  {
  }

  lemma AppendedConstantSimulates<V>(eng: Engine<V>, inputs: seq<V>, b: Built, v: Values<V>, ty: byte, data: seq<byte>)
    requires Simulates(eng, inputs, b, v) && Fits(b.g)
    requires ty <= 44 && |data| == ByteWidth(ty)
    ensures var g' := AppendConstant(b.g, ty, data).0;
            && Simulates(eng, inputs, b.(g := g'), v)
            && Evaluated(eng, g', inputs).value[|b.g.nodes|] == eng.constant(ty, data)
  {
    var g, g' := b.g, AppendConstant(b.g, ty, data).0;
    var vals := Evaluated(eng, g, inputs).value;
    AppendKeepsWellFormed(g, ty, data);
    AppendedConstantValue(eng, g, vals, ty, data, inputs);
    hide WellFormed, Eval, NodeOk;
    assert g'.nodes[..|g.nodes|] == g.nodes;
    assert (vals + [eng.constant(ty, data)])[..|vals|] == vals;
  }

  lemma AppendedConstantValue<V>(eng: Engine<V>, g: Graph, vals: seq<V>, ty: byte, data: seq<byte>, inputs: seq<V>)
    requires WellFormed(g) && |g.constants| < 0x1_0000 && Evaluated(eng, g, inputs) == Ok(vals)
    requires ty <= 44 && |data| == ByteWidth(ty)
    ensures Evaluated(eng, AppendConstant(g, ty, data).0, inputs) == Ok(vals + [eng.constant(ty, data)])
  {
    hide Eval, Tiled, ConstantBytes;
    var g' := AppendConstant(g, ty, data).0;
    EvalMoreConstants(eng, g.nodes, g.constants, g'.constants, inputs);
    var n := g'.nodes[|g.nodes|];
    assert n.a == |g.constants| && g'.constants[n.a..n.a + ByteWidth(ty)] == data;
    EvalPush(eng, g.(constants := g'.constants), n, inputs);
  }

  lemma ConstantSimulates<V>(eng: Engine<V>, inputs: seq<V>, b: Built, v: Values<V>, name: string,
                             ty: byte, data: seq<byte>, dedup: bool)
    requires Simulates(eng, inputs, b, v) && Fits(b.g)
    requires ty <= 44 && |data| == ByteWidth(ty)
    ensures var (g', index) := GraphBuilding.AddConstantBytes(b.g, ty, data, dedup);
            Simulates(eng, inputs, Built(g', b.regs[name := index]),
                      v.(regs := v.regs[name := eng.constant(ty, data)]))
  {
    hide WellFormed, Eval, Outputs, InputsTaken;
    var found := if dedup then FindConstant(b.g, ty, data, 0) else None;
    if found.Some? {
      ConstantNodeValue(eng, b.g, inputs, found.value);
      BindNewest(eng, inputs, b, v, name, found.value, eng.constant(ty, data));
    } else {
      AppendedConstantSimulates(eng, inputs, b, v, ty, data);
      var g' := AppendConstant(b.g, ty, data).0;
      BindNewest(eng, inputs, b.(g := g'), v, name, |b.g.nodes|, eng.constant(ty, data));
    }
  }

  /** The node a non-constant call pushes. */
  function CallNode(call: Call, regs: map<string, u16>): Node
    requires Operands(call) <= regs.Keys && !call.AddConstant? && !call.AddConstantBytes?
  {
    match call
    case AddInput(ty) => InputNode(ty)
    case AddPlaintextInput(ty) => PlaintextInputNode(ty)
    case AddUnaryOp(op, ty, a) => OpNode(op, ty, regs[a], NONE, NONE)
    case AddBinaryOp(op, ty, a, b) => OpNode(op, ty, regs[a], regs[b], NONE)
    case AddTernaryOp(op, ty, a, b, c) => OpNode(op, ty, regs[a], regs[b], regs[c])
  }

  /** The evaluator recovers from a pushed node exactly the call that pushed it. */
  lemma PerformIsCallValue<V>(eng: Engine<V>, inputs: seq<V>, b: Built, v: Values<V>, call: Call)
    requires Simulates(eng, inputs, b, v) && Fits(b.g)
    requires CallOk(call) && Operands(call) <= b.regs.Keys && !call.AddConstant? && !call.AddConstantBytes?
    ensures NodeOk(CallNode(call, b.regs), |b.g.nodes|, |b.g.constants|)
    ensures Perform(eng, CallNode(call, b.regs), Evaluated(eng, b.g, inputs).value, b.g.constants, inputs,
                    InputsTaken(b.g.nodes)) == CallValue(eng, call, v)
    ensures TakesInput(CallNode(call, b.regs)) == CallTakesInput(call)
  {
    match call
    case AddInput(_) =>
    case AddPlaintextInput(_) =>
    case AddUnaryOp(_, _, a) =>
      assert a in b.regs;
    case AddBinaryOp(_, _, a, b') =>
      assert a in b.regs && b' in b.regs;
    case AddTernaryOp(_, _, a, b', c) =>
      assert a in b.regs && b' in b.regs && c in b.regs;
  }

  lemma SimulatesNames<V>(eng: Engine<V>, inputs: seq<V>, b: Built, v: Values<V>)
    requires Simulates(eng, inputs, b, v)
    ensures b.regs.Keys == v.regs.Keys && Evaluated(eng, b.g, inputs).Ok?
  {
  }

  lemma CallSimulates<V>(eng: Engine<V>, inputs: seq<V>, b: Built, v: Values<V>, name: string, call: Call, dedup: bool)
    requires Simulates(eng, inputs, b, v) && Fits(b.g)
    requires CallOk(call) && Operands(call) <= b.regs.Keys && !call.AddConstant? && !call.AddConstantBytes?
    ensures var s := Let(name, call);
            var b' := StepBuild(s, b, dedup);
            var r := StepValues(eng, s, v);
            && (r.Err? ==> WellFormed(b'.g) && Evaluated(eng, b'.g, inputs) == Err(r.error))
            && (r.Ok? ==> Simulates(eng, inputs, b', r.value))
  {
    hide WellFormed, Eval, NodeOk, Perform, Outputs, InputsTaken, Simulates;
    SimulatesNames(eng, inputs, b, v);
    var n := CallNode(call, b.regs);
    PerformIsCallValue(eng, inputs, b, v, call);
    PushSimulates(eng, inputs, b, v, n);
    var value := CallValue(eng, call, v);
    if value.Ok? {
      var v' := v.(inputs := if CallTakesInput(call) then v.inputs[1..] else v.inputs);
      assert v.outs + [] == v.outs;
      BindNewest(eng, inputs, b.(g := Push(b.g, n)), v', name, |b.g.nodes|, value.value);
    }
  }

  lemma StepSimulates<V>(eng: Engine<V>, inputs: seq<V>, b: Built, v: Values<V>, s: Stmt, dedup: bool)
    requires Simulates(eng, inputs, b, v) && Fits(b.g) && StmtOk(s, b.regs.Keys)
    ensures var b' := StepBuild(s, b, dedup);
            var r := StepValues(eng, s, v);
            && (r.Err? ==> WellFormed(b'.g) && Evaluated(eng, b'.g, inputs) == Err(r.error))
            && (r.Ok? ==> Simulates(eng, inputs, b', r.value))
  {
    hide WellFormed, Eval, Outputs, InputsTaken;
    match s
    case Let(name, call) =>
      if call.AddConstant? || call.AddConstantBytes? {
        ConstantSimulates(eng, inputs, b, v, name, call.ty, ConstantOf(call), dedup);
      } else {
        CallSimulates(eng, inputs, b, v, name, call, dedup);
      }
    case Alias(name, source) =>
      BindNewest(eng, inputs, b, v, name, b.regs[source], v.regs[source]);
    case Output(ty, source) =>
      PushSimulates(eng, inputs, b, v, OutputNode(ty, b.regs[source]));
  }

  // ---- whole scripts ----

  /** A builder state whose names all hold indices of existing nodes. */
  predicate BuiltOk(b: Built) {
    WellFormed(b.g) && forall x :: x in b.regs ==> b.regs[x] < |b.g.nodes|
  }

  lemma StepKeepsBuiltOk(s: Stmt, b: Built, dedup: bool)
    requires BuiltOk(b) && Fits(b.g) && StmtOk(s, b.regs.Keys)
    ensures BuiltOk(StepBuild(s, b, dedup))
    ensures dedup && NoDuplicates(b.g) ==> NoDuplicates(StepBuild(s, b, dedup).g)
  {
    hide Tiled, ConstantBytes, NoDuplicates;
    match s
    case Let(name, call) =>
      if call.AddConstant? || call.AddConstantBytes? {
        AddConstantKeepsWellFormed(b.g, call.ty, ConstantOf(call), dedup);
      } else {
        assert forall x <- Operands(call) :: b.regs[x] < |b.g.nodes|;
        PushKeepsWellFormed(b.g, CallNode(call, b.regs));
      }
    case Alias(_, _) =>
    case Output(ty, source) =>
      PushKeepsWellFormed(b.g, OutputNode(ty, b.regs[source]));
  }

  /** Every run of the builder keeps its graph topologically ordered with its constants tiled, and
      with deduplication no constant is ever stored twice. */
  lemma {:induction false} BuildKeepsWellFormed(script: seq<Stmt>, b: Built, dedup: bool)
    requires BuiltOk(b) && Closed(script, b.regs.Keys) && Fits(Build(script, b, dedup).g)
    ensures BuiltOk(Build(script, b, dedup))
    ensures dedup && NoDuplicates(b.g) ==> NoDuplicates(Build(script, b, dedup).g)
    decreases |script|
  {
    hide WellFormed, NoDuplicates;
    if script != [] {
      StepKeepsBuiltOk(script[0], b, dedup);
      BuildKeepsWellFormed(script[1..], StepBuild(script[0], b, dedup), dedup);
    }
  }

  /** A failing evaluation stays the same failure in every extension of the graph. */
  lemma FailureExtends<V>(eng: Engine<V>, g: Graph, g': Graph, inputs: seq<V>)
    requires WellFormed(g) && Extends(g, g') && Evaluated(eng, g, inputs).Err?
    ensures Evaluated(eng, g', inputs) == Evaluated(eng, g, inputs)
  {
    EvalMoreConstants(eng, g.nodes, g.constants, g'.constants, inputs);
    EvalFailureExtends(eng, g.nodes, g'.nodes[|g.nodes|..], g'.constants, inputs);
    assert g.nodes + g'.nodes[|g.nodes|..] == g'.nodes;
  }

  lemma {:induction false} ScriptSimulates<V>(eng: Engine<V>, inputs: seq<V>, script: seq<Stmt>,
                                              b: Built, v: Values<V>, dedup: bool)
    requires Simulates(eng, inputs, b, v) && Closed(script, b.regs.Keys) && Fits(Build(script, b, dedup).g)
    ensures var b' := Build(script, b, dedup);
            var r := Interpret(eng, script, v);
            && (r.Err? ==> Evaluated(eng, b'.g, inputs) == Err(r.error))
            && (r.Ok? ==> Simulates(eng, inputs, b', r.value))
    decreases |script|
  {
    hide WellFormed, Eval, Outputs, InputsTaken;
    if script != [] {
      var next := StepBuild(script[0], b, dedup);
      StepSimulates(eng, inputs, b, v, script[0], dedup);
      var r := StepValues(eng, script[0], v);
      if r.Ok? {
        ScriptSimulates(eng, inputs, script[1..], next, r.value, dedup);
      } else {
        FailureExtends(eng, next.g, Build(script, b, dedup).g, inputs);
      }
    }
  }

  const START := Built(EMPTY, map[])

  function InitialValues<V>(inputs: seq<V>): Values<V> {
    Values(map[], inputs, [])
  }

  /** The graph a script builds from nothing. */
  function GraphOf(script: seq<Stmt>, dedup: bool): Graph
    requires Closed(script, {})
  {
    assert START.regs.Keys == {};
    Build(script, START, dedup).g
  }

  /** What a script computes on given inputs: its outputs in order, or the first failure. */
  function Meaning<V>(eng: Engine<V>, script: seq<Stmt>, inputs: seq<V>): Result<seq<V>, EvalError>
    requires Closed(script, {})
  {
    var start := InitialValues(inputs);
    assert start.regs.Keys == {};
    match Interpret(eng, script, start)
    case Err(e) => Err(e)
    case Ok(v) => Ok(v.outs)
  }

  lemma {:induction false} BuildKnownKinds(script: seq<Stmt>, b: Built, dedup: bool)
    requires KnownKinds(b.g) && Closed(script, b.regs.Keys)
    ensures KnownKinds(Build(script, b, dedup).g)
    decreases |script|
  {
    if script != [] {
      BuildKnownKinds(script[1..], StepBuild(script[0], b, dedup), dedup);
    }
  }

  lemma LimitsFit(script: seq<Stmt>, dedup: bool)
    requires Closed(script, {}) && WithinLimits(GraphOf(script, dedup))
    ensures KnownKinds(GraphOf(script, dedup)) && Fits(GraphOf(script, dedup))
    ensures WellFormed(GraphOf(script, dedup))
    ensures dedup ==> NoDuplicates(GraphOf(script, dedup))
  {
    assert START.regs.Keys == {};
    BuildKnownKinds(script, START, dedup);
    LimitsBoundNodes(GraphOf(script, dedup));
    BuildKeepsWellFormed(script, START, dedup);
  }

  lemma StartSimulates<V>(eng: Engine<V>, inputs: seq<V>)
    ensures Simulates(eng, inputs, START, InitialValues(inputs))
  {
    assert inputs[0..] == inputs;
  }

  lemma GraphMeaning<V>(eng: Engine<V>, script: seq<Stmt>, inputs: seq<V>, dedup: bool)
    requires Closed(script, {}) && WithinLimits(GraphOf(script, dedup))
    ensures var g := GraphOf(script, dedup);
            OutputsOf(g.nodes, Eval(eng, g.nodes, g.constants, inputs)) == Meaning(eng, script, inputs)
  {
    LimitsFit(script, dedup);
    hide Build, Interpret, Closed, WellFormed, Eval, Outputs, InputsTaken, WithinLimits;
    var start := InitialValues(inputs);
    assert START.regs.Keys == {} && start.regs.Keys == {};
    StartSimulates(eng, inputs);
    ScriptSimulates(eng, inputs, script, START, start, dedup);
  }

  /** Serializing the graph a script builds and evaluating the bytes, with anything behind them,
      computes what the script says, for every engine. */
  lemma SerializedGraphComputesScript<V>(eng: Engine<V>, script: seq<Stmt>, inputs: seq<V>, trailing: seq<byte>, dedup: bool)
    requires Closed(script, {}) && WithinLimits(GraphOf(script, dedup))
    requires CountKind(GraphOf(script, dedup).nodes, KIND_INPUT) <= |inputs|
    ensures EvaluateGraph(eng, Serialize(GraphOf(script, dedup)) + trailing, inputs) == Meaning(eng, script, inputs)
  {
    LimitsFit(script, dedup);
    GraphMeaning(eng, script, inputs, dedup);
    EvaluateSerialized(eng, GraphOf(script, dedup), trailing, inputs);
  }

  // ---- deduplication ----

  predicate OperandMaps(x: u16, y: u16, rho: seq<u16>) {
    if x < |rho| then y == rho[x] else x == NONE && y == NONE
  }

  /** Node i of g is node rho[i] of g', with operands renumbered and constants equal as bytes. */
  predicate NodeMaps(g: Graph, i: nat, g': Graph, rho: seq<u16>)
    requires WellFormed(g) && WellFormed(g') && i < |g.nodes| && i < |rho|
  {
    && rho[i] < |g'.nodes|
    && var n, m := g.nodes[i], g'.nodes[rho[i]];
    && n.kind == m.kind && n.ty == m.ty
    && (n.kind == KIND_CONSTANT ==> ConstantAt(g, i) == ConstantAt(g', rho[i]))
    && (n.kind != KIND_CONSTANT ==>
      && n.op == m.op
      && OperandMaps(n.a, m.a, rho) && OperandMaps(n.b, m.b, rho) && OperandMaps(n.c, m.c, rho))
  }

  /** g' is g with its nodes renumbered by rho, at most as large in every kind. */
  predicate Renumbers(g: Graph, g': Graph, rho: seq<u16>)
    requires WellFormed(g) && WellFormed(g')
  {
    && |rho| == |g.nodes|
    && (forall i | 0 <= i < |rho| :: NodeMaps(g, i, g', rho))
    && |g'.constants| <= |g.constants|
    && (forall kind: byte :: CountKind(g'.nodes, kind) <= CountKind(g.nodes, kind))
  }

  /** The appending builder and the deduplicating one, side by side. */
  predicate SideBySide(b: Built, d: Built, rho: seq<u16>) {
    && BuiltOk(b) && BuiltOk(d) && Renumbers(b.g, d.g, rho)
    && b.regs.Keys == d.regs.Keys
    && forall x :: x in b.regs ==> d.regs[x] == rho[b.regs[x]]
  }

  lemma ConstantStays(g: Graph, h: Graph, i: nat)
    requires Extends(g, h) && i < |g.nodes| && g.nodes[i].kind == KIND_CONSTANT
    requires NodeOk(g.nodes[i], i, |g.constants|)
    ensures NodeOk(h.nodes[i], i, |h.constants|) && ConstantAt(h, i) == ConstantAt(g, i)
  {
  }

  /** Binding a name to a node and to its renumbering. */
  lemma BindBoth(b: Built, d: Built, rho: seq<u16>, name: string, index: u16)
    requires SideBySide(b, d, rho) && index < |b.g.nodes|
    ensures SideBySide(b.(regs := b.regs[name := index]), d.(regs := d.regs[name := rho[index]]), rho)
  {
    hide WellFormed, CountKind;
    assert NodeMaps(b.g, index, d.g, rho);
  }

  lemma ExtendNodeMaps(g: Graph, i: nat, g': Graph, rho: seq<u16>, h: Graph, h': Graph, index: u16)
    requires WellFormed(g) && WellFormed(g') && WellFormed(h) && WellFormed(h')
    requires Extends(g, h) && Extends(g', h') && i < |g.nodes| == |rho| < 0xFFFF
    requires NodeMaps(g, i, g', rho)
    ensures NodeMaps(h, i, h', rho + [index])
  {
    hide Tiled, ConstantBytes;
    var rho' := rho + [index];
    assert h.nodes[i] == g.nodes[i] && h'.nodes[rho[i]] == g'.nodes[rho[i]];
    assert NodeOk(g.nodes[i], i, |g.constants|) && NodeOk(g'.nodes[rho[i]], rho[i], |g'.constants|);
    if g.nodes[i].kind == KIND_CONSTANT {
      ConstantStays(g, h, i);
      ConstantStays(g', h', rho[i]);
    }
    forall x: u16, y: u16 | OperandMaps(x, y, rho)
      ensures OperandMaps(x, y, rho')
    {
    }
  }

  lemma NodesStillMap(g: Graph, g': Graph, rho: seq<u16>, h: Graph, h': Graph, index: u16)
    requires WellFormed(g) && WellFormed(g') && WellFormed(h) && WellFormed(h')
    requires Extends(g, h) && Extends(g', h') && |rho| < 0xFFFF && Renumbers(g, g', rho)
    ensures forall i | 0 <= i < |rho| :: NodeMaps(h, i, h', rho + [index])
  {
    forall i | 0 <= i < |rho|
      ensures NodeMaps(h, i, h', rho + [index])
    {
      ExtendNodeMaps(g, i, g', rho, h, h', index);
    }
  }

  lemma NewestMaps(g: Graph, g': Graph, rho: seq<u16>, n: Node, m: Node)
    requires WellFormed(Push(g, n)) && WellFormed(Push(g', m)) && |rho| == |g.nodes| < 0xFFFF && |g'.nodes| < 0xFFFF
    requires n.kind == m.kind && n.op == m.op && n.ty == m.ty && n.kind != KIND_CONSTANT
    requires OperandMaps(n.a, m.a, rho) && OperandMaps(n.b, m.b, rho) && OperandMaps(n.c, m.c, rho)
    ensures NodeMaps(Push(g, n), |rho|, Push(g', m), rho + [NextIndex(g')])
  {
    hide WellFormed;
  }

  /** One node appended to each side. */
  lemma PushBoth(b: Built, d: Built, rho: seq<u16>, n: Node, m: Node)
    requires SideBySide(b, d, rho) && Fits(b.g) && Fits(d.g)
    requires NodeOk(n, |b.g.nodes|, |b.g.constants|) && n.kind != KIND_CONSTANT
    requires NodeOk(m, |d.g.nodes|, |d.g.constants|)
    requires n.kind == m.kind && n.op == m.op && n.ty == m.ty
    requires OperandMaps(n.a, m.a, rho) && OperandMaps(n.b, m.b, rho) && OperandMaps(n.c, m.c, rho)
    ensures SideBySide(b.(g := Push(b.g, n)), d.(g := Push(d.g, m)), rho + [NextIndex(d.g)])
  {
    var g, g', h, h' := b.g, d.g, Push(b.g, n), Push(d.g, m);
    hide WellFormed, NodeMaps, NodeOk;
    PushKeepsWellFormed(g, n);
    PushKeepsWellFormed(g', m);
    NewestMaps(g, g', rho, n, m);
    NodesStillMap(g, g', rho, h, h', NextIndex(g'));
    CountPush(g.nodes, n);
    CountPush(g'.nodes, m);
  }

  lemma ConstantMaps(g: Graph, g': Graph, h: Graph, h': Graph, rho: seq<u16>, ty: byte, data: seq<byte>)
    requires WellFormed(g) && WellFormed(g') && WellFormed(h) && WellFormed(h') && |rho| == |g.nodes|
    requires ty <= 44 && |data| == ByteWidth(ty) && |g.constants| < 0x1_0000 && |g'.constants| < 0x1_0000
    requires |g'.nodes| < 0xFFFF
    requires h == AppendConstant(g, ty, data).0 && h' == GraphBuilding.AddConstantBytes(g', ty, data, true).0
    ensures NodeMaps(h, |rho|, h', rho + [GraphBuilding.AddConstantBytes(g', ty, data, true).1])
  {
    hide Tiled, ConstantBytes, ByteWidth, FindConstant;
    AppendKeepsWellFormed(g, ty, data);
    AppendKeepsWellFormed(g', ty, data);
  }

  lemma ConstantBoth(b: Built, d: Built, rho: seq<u16>, ty: byte, data: seq<byte>)
    requires SideBySide(b, d, rho) && Fits(b.g) && Fits(d.g)
    requires ty <= 44 && |data| == ByteWidth(ty)
    ensures var (h, _) := AppendConstant(b.g, ty, data);
            var (h', index) := GraphBuilding.AddConstantBytes(d.g, ty, data, true);
            SideBySide(b.(g := h), d.(g := h'), rho + [index])
  {
    hide WellFormed, NodeMaps, NodeOk;
    var g, g' := b.g, d.g;
    var (h, _) := AppendConstant(g, ty, data);
    var (h', index) := GraphBuilding.AddConstantBytes(g', ty, data, true);
    AppendKeepsWellFormed(g, ty, data);
    AddConstantKeepsWellFormed(g', ty, data, true);
    ConstantMaps(g, g', h, h', rho, ty, data);
    NodesStillMap(g, g', rho, h, h', index);
    CountPush(g.nodes, h.nodes[|g.nodes|]);
    if h' != g' {
      CountPush(g'.nodes, h'.nodes[|g'.nodes|]);
    }
  }

  lemma LetConstantSideBySide(name: string, call: Call, b: Built, d: Built, rho: seq<u16>) returns (rho': seq<u16>)
    requires SideBySide(b, d, rho) && Fits(b.g) && Fits(d.g) && CallOk(call) && (call.AddConstant? || call.AddConstantBytes?)
    ensures SideBySide(StepBuild(Let(name, call), b, false), StepBuild(Let(name, call), d, true), rho') && rho <= rho'
  {
    hide WellFormed, CountKind, Renumbers, FindConstant;
    var data := ConstantOf(call);
    assert |data| == ByteWidth(call.ty);
    var (h, index) := AppendConstant(b.g, call.ty, data);
    var (h', index') := GraphBuilding.AddConstantBytes(d.g, call.ty, data, true);
    ConstantBoth(b, d, rho, call.ty, data);
    RenumberedLength(b, d, rho);
    rho' := rho + [index'];
    BindBoth(b.(g := h), d.(g := h'), rho', name, index);
  }

  lemma LetOpSideBySide(name: string, call: Call, b: Built, d: Built, rho: seq<u16>) returns (rho': seq<u16>)
    requires SideBySide(b, d, rho) && Fits(b.g) && Fits(d.g) && CallOk(call) && Operands(call) <= b.regs.Keys
    requires !call.AddConstant? && !call.AddConstantBytes?
    ensures SideBySide(StepBuild(Let(name, call), b, false), StepBuild(Let(name, call), d, true), rho') && rho <= rho'
  {
    hide WellFormed, CountKind, Renumbers, NodeOk;
    var n, m := CallNode(call, b.regs), CallNode(call, d.regs);
    CallNodesMap(call, b, d, rho);
    PushBoth(b, d, rho, n, m);
    RenumberedLength(b, d, rho);
    rho' := rho + [NextIndex(d.g)];
    BindBoth(b.(g := Push(b.g, n)), d.(g := Push(d.g, m)), rho', name, NextIndex(b.g));
  }

  lemma StepSideBySide(s: Stmt, b: Built, d: Built, rho: seq<u16>) returns (rho': seq<u16>)
    requires SideBySide(b, d, rho) && Fits(b.g) && Fits(d.g) && StmtOk(s, b.regs.Keys)
    ensures SideBySide(StepBuild(s, b, false), StepBuild(s, d, true), rho') && rho <= rho'
  {
    hide WellFormed, CountKind, Renumbers;
    match s
    case Let(name, call) =>
      if call.AddConstant? || call.AddConstantBytes? {
        rho' := LetConstantSideBySide(name, call, b, d, rho);
      } else {
        rho' := LetOpSideBySide(name, call, b, d, rho);
      }
    case Alias(name, source) =>
      rho' := rho;
      BindBoth(b, d, rho, name, b.regs[source]);
    case Output(ty, source) =>
      RenumberedLength(b, d, rho);
      PushBoth(b, d, rho, OutputNode(ty, b.regs[source]), OutputNode(ty, d.regs[source]));
      rho' := rho + [NextIndex(d.g)];
  }

  lemma RenumberedLength(b: Built, d: Built, rho: seq<u16>)
    requires SideBySide(b, d, rho)
    ensures |rho| == |b.g.nodes|
    ensures forall x :: x in b.regs ==> d.regs[x] == rho[b.regs[x]] && d.regs[x] < |d.g.nodes|
  {
    hide WellFormed, CountKind;
  }

  lemma CallNodesMap(call: Call, b: Built, d: Built, rho: seq<u16>)
    requires SideBySide(b, d, rho) && Fits(b.g) && Fits(d.g) && CallOk(call) && Operands(call) <= b.regs.Keys
    requires !call.AddConstant? && !call.AddConstantBytes?
    ensures var n, m := CallNode(call, b.regs), CallNode(call, d.regs);
            && NodeOk(n, |b.g.nodes|, |b.g.constants|) && NodeOk(m, |d.g.nodes|, |d.g.constants|)
            && OperandMaps(n.a, m.a, rho) && OperandMaps(n.b, m.b, rho) && OperandMaps(n.c, m.c, rho)
  {
    hide WellFormed, CountKind;
    assert forall x <- Operands(call) :: b.regs[x] < |rho| && d.regs[x] == rho[b.regs[x]] && d.regs[x] < |d.g.nodes|;
  }

  lemma {:induction false} ScriptSideBySide(script: seq<Stmt>, b: Built, d: Built, rho: seq<u16>) returns (rho': seq<u16>)
    requires SideBySide(b, d, rho) && Closed(script, b.regs.Keys)
    requires Fits(Build(script, b, false).g)
    ensures SideBySide(Build(script, b, false), Build(script, d, true), rho')
    decreases |script|
  {
    hide WellFormed, NodeMaps, CountKind;
    rho' := rho;
    if script != [] {
      RenumberedFits(b, d, rho);
      rho' := StepSideBySide(script[0], b, d, rho);
      rho' := ScriptSideBySide(script[1..], StepBuild(script[0], b, false), StepBuild(script[0], d, true), rho');
    }
  }

  lemma RenumberedFits(b: Built, d: Built, rho: seq<u16>)
    requires SideBySide(b, d, rho) && Fits(b.g)
    ensures Fits(d.g)
  {
    hide Tiled, ConstantBytes, NodeMaps;
    forall g <- {b.g, d.g}
      ensures KnownKinds(g)
    {
      forall n <- g.nodes
        ensures n.kind <= KIND_OUTPUT
      {
        var i :| 0 <= i < |g.nodes| && g.nodes[i] == n;
        assert NodeOk(g.nodes[i], i, |g.constants|);
      }
    }
    KindsPartition(b.g.nodes);
    KindsPartition(d.g.nodes);
  }

  /** Deduplication renumbers nodes and nothing else, and never makes the graph larger. */
  lemma DedupRenumbers(script: seq<Stmt>) returns (rho: seq<u16>)
    requires Closed(script, {}) && WithinLimits(GraphOf(script, false))
    ensures WithinLimits(GraphOf(script, true))
    ensures WellFormed(GraphOf(script, false)) && WellFormed(GraphOf(script, true))
    ensures Renumbers(GraphOf(script, false), GraphOf(script, true), rho)
  {
    LimitsFit(script, false);
    assert START.regs.Keys == {};
    rho := ScriptSideBySide(script, START, START, []);
  }

  /** Constant deduplication is invisible: evaluating the deduplicated graph and the graph with every
      constant appended gives the same result on every engine and all inputs, and the deduplicated
      graph holds no constant twice. */
  lemma DedupInvisible<V>(eng: Engine<V>, script: seq<Stmt>, inputs: seq<V>, trailing: seq<byte>, trailing': seq<byte>)
    requires Closed(script, {}) && WithinLimits(GraphOf(script, false))
    requires CountKind(GraphOf(script, false).nodes, KIND_INPUT) <= |inputs|
    ensures EvaluateGraph(eng, Serialize(GraphOf(script, true)) + trailing, inputs)
         == EvaluateGraph(eng, Serialize(GraphOf(script, false)) + trailing', inputs)
    ensures WellFormed(GraphOf(script, true)) && NoDuplicates(GraphOf(script, true))
  {
    var rho := DedupRenumbers(script);
    LimitsFit(script, true);
    SerializedGraphComputesScript(eng, script, inputs, trailing, true);
    SerializedGraphComputesScript(eng, script, inputs, trailing', false);
  }
}
