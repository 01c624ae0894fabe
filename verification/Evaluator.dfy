/** The graph evaluator: arity dispatch on nine-byte nodes and the loop over nodes, generic in the
    compute engine, as the `ComputeEngine` trait makes it. */
module Evaluator {
  import opened LittleEndian
  import opened FheTypes
  import opened GraphFormat
  import opened GraphBuilding

  /** Why an engine call did not return: a digest it does not know, or a slice index out of range. */
  datatype EngineFault = UnknownDigest | Panicked

  datatype EvalError =
    | InvalidGraph
    | NotEnoughInputs(expected: nat, got: nat)
    | UnknownNodeKind(kind: nat)
    | InvalidFheType(ty: nat)
    | InvalidNodeReference(nodeIndex: nat, operandIndex: nat)
    | Compute(fault: EngineFault)
    | InputIndexPanic

  datatype Result<+T, +E> = Ok(value: T) | Err(error: E)

  /** A compute engine that is a function of its operands' values. */
  datatype Engine<!V> = Engine(
    constant: (FheType, seq<byte>) -> V,
    unary: (nat, V, FheType) -> Result<V, EngineFault>,
    binary: (nat, V, V, FheType) -> Result<V, EngineFault>,
    ternary: (nat, V, V, V, FheType) -> Result<V, EngineFault>)

  // ---- decoding a node into what the loop does with it ----

  datatype Action =
    | TakeInput
    | Encode(ty: FheType, bytes: seq<byte>)
    | Unary(op: nat, a: nat, ty: FheType)
    | Binary(op: nat, a: nat, b: nat, ty: FheType)
    | Ternary(op: nat, a: nat, b: nat, c: nat, ty: FheType)
    | Forward(source: nat)

  /** The body of the evaluation loop before it touches the engine. `known` digests are available;
      the arity of an operation is recovered from its 0xFFFF sentinels. */
  function Decode(n: Node, i: nat, known: nat, constants: seq<byte>): (r: Result<Action, EvalError>)
    ensures r.Ok? && r.value.Unary? ==> r.value.a < known
    ensures r.Ok? && r.value.Binary? ==> r.value.a < known && r.value.b < known
    ensures r.Ok? && r.value.Ternary? ==> r.value.a < known && r.value.b < known && r.value.c < known
    ensures r.Ok? && r.value.Forward? ==> r.value.source < known
  {
    var ft := FromU8(n.ty);
    if ft.None? then Err(InvalidFheType(n.ty))
    else if n.kind == KIND_INPUT || n.kind == KIND_PLAINTEXT_INPUT then Ok(TakeInput)
    else if n.kind == KIND_CONSTANT then
      var width := ByteWidth(ft.value);
      if n.a + width > |constants| then Err(InvalidGraph)
      else Ok(Encode(ft.value, constants[n.a..n.a + width]))
    else if n.kind == KIND_OP then
      if n.a >= known then Err(InvalidNodeReference(i, n.a))
      else if n.c != NONE && n.c < known && n.b < known then Ok(Ternary(n.op, n.a, n.b, n.c, ft.value))
      else if n.b == NONE then Ok(Unary(n.op, n.a, ft.value))
      else if n.b >= known then Err(InvalidNodeReference(i, n.b))
      else Ok(Binary(n.op, n.a, n.b, ft.value))
    else if n.kind == KIND_OUTPUT then
      if n.a >= known then Err(InvalidNodeReference(i, n.a)) else Ok(Forward(n.a))
    else Err(UnknownNodeKind(n.kind))
  }

  /** Any nine bytes: when a node is refused, and with which error. A third operand out of range is not
      among the reasons. */
  lemma DecodeErrors(n: Node, i: nat, known: nat, constants: seq<byte>)
    ensures var r := Decode(n, i, known, constants);
            if n.ty > 44 then r == Err(InvalidFheType(n.ty))
            else if n.kind > 4 then r == Err(UnknownNodeKind(n.kind))
            else if n.kind == 2 && n.a + ByteWidth(n.ty) > |constants| then r == Err(InvalidGraph)
            else if n.kind >= 3 && n.a >= known then r == Err(InvalidNodeReference(i, n.a))
            else if n.kind == 3 && n.b != 0xFFFF && n.b >= known then r == Err(InvalidNodeReference(i, n.b))
            else known <= 0xFFFF ==> r.Ok?
  {
  }

  /** What an accepted operation does with its operands. A third operand that is marked present but names
      no earlier node is dropped without an error, and so is one behind an absent second operand. */
  lemma OperandsDecoded(n: Node, i: nat, known: nat, constants: seq<byte>)
    requires n.kind == 3 && known <= 0xFFFF && Decode(n, i, known, constants).Ok?
    ensures Decode(n, i, known, constants).value
         == if n.b == 0xFFFF then Unary(n.op, n.a, n.ty)
            else if n.c >= known then Binary(n.op, n.a, n.b, n.ty)
            else Ternary(n.op, n.a, n.b, n.c, n.ty)
  {
  }

  /** The other kinds: inputs of both sorts, constants read at their offset, outputs. */
  lemma OtherKindsDecoded(n: Node, i: nat, known: nat, constants: seq<byte>)
    requires n.kind != 3 && Decode(n, i, known, constants).Ok?
    ensures var action := Decode(n, i, known, constants).value;
            match n.kind
            case 2 => n.a + ByteWidth(n.ty) <= |constants| && action == Encode(n.ty, constants[n.a..n.a + ByteWidth(n.ty)])
            case 4 => action == Forward(n.a)
            case _ => action == TakeInput
  {
  }

  predicate TakesInput(n: Node) {
    n.kind == KIND_INPUT || n.kind == KIND_PLAINTEXT_INPUT
  }

  /** Inputs consumed by a prefix of the nodes: encrypted and plaintext ones alike. */
  function InputsTaken(nodes: seq<Node>): nat {
    if nodes == [] then 0
    else InputsTaken(nodes[..|nodes| - 1]) + (if TakesInput(nodes[|nodes| - 1]) then 1 else 0)
  }

  function FromEngine<V>(r: Result<V, EngineFault>): Result<V, EvalError> {
    match r case Ok(v) => Ok(v) case Err(fault) => Err(Compute(fault))
  }

  /** Value of one node, given the values of the nodes before it. */
  function Perform<V>(eng: Engine<V>, n: Node, vals: seq<V>, constants: seq<byte>, inputs: seq<V>, nextInput: nat)
    : Result<V, EvalError>
  {
    match Decode(n, |vals|, |vals|, constants)
    case Err(e) => Err(e)
    case Ok(TakeInput) => if nextInput < |inputs| then Ok(inputs[nextInput]) else Err(InputIndexPanic)
    case Ok(Encode(ty, bytes)) => Ok(eng.constant(ty, bytes))
    case Ok(Unary(op, a, ty)) => FromEngine(eng.unary(op, vals[a], ty))
    case Ok(Binary(op, a, b, ty)) => FromEngine(eng.binary(op, vals[a], vals[b], ty))
    case Ok(Ternary(op, a, b, c, ty)) => FromEngine(eng.ternary(op, vals[a], vals[b], vals[c], ty))
    case Ok(Forward(source)) => Ok(vals[source])
  }

  /** One more node behind those already evaluated; an error stops the evaluation. */
  function EvalNext<V>(eng: Engine<V>, sofar: Result<seq<V>, EvalError>, n: Node, constants: seq<byte>,
                       inputs: seq<V>, nextInput: nat): (r: Result<seq<V>, EvalError>)
  {
    match sofar
    case Err(e) => Err(e)
    case Ok(vals) =>
      match Perform(eng, n, vals, constants, inputs, nextInput)
      case Err(e) => Err(e)
      case Ok(v) => Ok(vals + [v])
  }

  /** Values of all nodes in order, or the first error. */
  function Eval<V>(eng: Engine<V>, nodes: seq<Node>, constants: seq<byte>, inputs: seq<V>)
    : (r: Result<seq<V>, EvalError>)
    ensures r.Ok? ==> |r.value| == |nodes|
  {
    if nodes == [] then Ok([])
    else
      var front := nodes[..|nodes| - 1];
      EvalNext(eng, Eval(eng, front, constants, inputs), nodes[|nodes| - 1], constants, inputs, InputsTaken(front))
  }

  /** The values of the output nodes, in node order. */
  function Outputs<V>(nodes: seq<Node>, vals: seq<V>): seq<V>
    requires |vals| == |nodes|
  {
    if nodes == [] then []
    else
      var last := |nodes| - 1;
      Outputs(nodes[..last], vals[..last]) + (if nodes[last].kind == KIND_OUTPUT then [vals[last]] else [])
  }

  function OutputsOf<V>(nodes: seq<Node>, r: Result<seq<V>, EvalError>): Result<seq<V>, EvalError>
    requires r.Ok? ==> |r.value| == |nodes|
  {
    match r case Err(e) => Err(e) case Ok(vals) => Ok(Outputs(nodes, vals))
  }

  /** Nodes of a parsed graph, as the loop reads them by index. */
  function NodesOf(nodeBytes: seq<byte>, count: nat): (nodes: seq<Node>)
    requires |nodeBytes| == NODE_SIZE * count
    ensures |nodes| == count
  {
    seq(count, i requires 0 <= i < count => NodeView(nodeBytes[i * NODE_SIZE..i * NODE_SIZE + NODE_SIZE]))
  }

  /** `evaluate_graph` on serialized bytes, for an engine without state: one value per Output node. */
  function EvaluateGraph<V>(eng: Engine<V>, data: seq<byte>, inputs: seq<V>): Result<seq<V>, EvalError> {
    var p := ParseGraph(data);
    if p.None? then Err(InvalidGraph)
    else if |inputs| < p.value.header[1] then Err(NotEnoughInputs(p.value.header[1], |inputs|))
    else
      var nodes := NodesOf(p.value.nodes, NumNodes(p.value.header));
      OutputsOf(nodes, Eval(eng, nodes, p.value.constants, inputs))
  }

  /** What stops an evaluation before its first node, on any bytes: data shorter than it announces, or
      fewer inputs than the second byte counts. */
  lemma RefusedBeforeStart<V>(eng: Engine<V>, data: seq<byte>, inputs: seq<V>)
    ensures |data| < 8 || |data| < 8 + 9 * NodesAnnounced(data) + BytesAnnounced(data) ==>
              EvaluateGraph(eng, data, inputs) == Err(InvalidGraph)
    ensures |data| >= 8 && |data| >= 8 + 9 * NodesAnnounced(data) + BytesAnnounced(data) && |inputs| < data[1] ==>
              EvaluateGraph(eng, data, inputs) == Err(NotEnoughInputs(data[1], |inputs|))
  {
    hide NumNodes, ConstantsLen, Eval, Outputs;
    ParsesIff(data);
    HeaderInFront(data);
  }

  lemma HeaderInFront(data: seq<byte>)
    ensures ParseGraph(data).Some? ==> |data| >= 8 && ParseGraph(data).value.header == data[..8]
  {
  }

  // ---- prefixes and extensions ----

  lemma {:induction false} EvalPrefix<V>(eng: Engine<V>, nodes: seq<Node>, constants: seq<byte>, inputs: seq<V>, k: nat)
    requires k <= |nodes| && Eval(eng, nodes, constants, inputs).Ok?
    ensures Eval(eng, nodes[..k], constants, inputs) == Ok(Eval(eng, nodes, constants, inputs).value[..k])
  {
    var last := |nodes| - 1;
    if k == |nodes| {
      assert nodes[..k] == nodes;
      var vals := Eval(eng, nodes, constants, inputs).value;
      assert vals[..k] == vals;
    } else {
      EvalPrefix(eng, nodes[..last], constants, inputs, k);
      assert nodes[..last][..k] == nodes[..k];
      assert Eval(eng, nodes, constants, inputs).value[..k]
          == Eval(eng, nodes[..last], constants, inputs).value[..k];
    }
  }

  /** A graph whose evaluation fails still fails, the same way, with more nodes behind it. */
  lemma {:induction false} EvalFailureExtends<V>(eng: Engine<V>, nodes: seq<Node>, more: seq<Node>,
                                                 constants: seq<byte>, inputs: seq<V>)
    requires Eval(eng, nodes, constants, inputs).Err?
    ensures Eval(eng, nodes + more, constants, inputs) == Eval(eng, nodes, constants, inputs)
  {
    if more == [] {
      assert nodes + more == nodes;
    } else {
      var last := |more| - 1;
      EvalFailureExtends(eng, nodes, more[..last], constants, inputs);
      assert (nodes + more)[..|nodes| + last] == nodes + more[..last];
    }
  }

  lemma PerformMoreConstants<V>(eng: Engine<V>, n: Node, vals: seq<V>, constants: seq<byte>, constants': seq<byte>,
                                inputs: seq<V>, nextInput: nat)
    requires NodeOk(n, |vals|, |constants|) && constants <= constants'
    ensures Perform(eng, n, vals, constants', inputs, nextInput) == Perform(eng, n, vals, constants, inputs, nextInput)
  {
    if n.kind == KIND_CONSTANT {
      assert constants'[n.a..n.a + ByteWidth(n.ty)] == constants[n.a..n.a + ByteWidth(n.ty)];
    }
  }

  /** Constants appended behind a well-formed graph do not change its evaluation. */
  lemma {:induction false} EvalMoreConstants<V>(eng: Engine<V>, nodes: seq<Node>, constants: seq<byte>,
                                                constants': seq<byte>, inputs: seq<V>)
    requires forall i | 0 <= i < |nodes| :: NodeOk(nodes[i], i, |constants|)
    requires constants <= constants'
    ensures Eval(eng, nodes, constants', inputs) == Eval(eng, nodes, constants, inputs)
  {
    if nodes != [] {
      var last := |nodes| - 1;
      EvalMoreConstants(eng, nodes[..last], constants, constants', inputs);
      var r := Eval(eng, nodes[..last], constants, inputs);
      if r.Ok? {
        PerformMoreConstants(eng, nodes[last], r.value, constants, constants', inputs, InputsTaken(nodes[..last]));
      }
    }
  }

  lemma DecodeNeverFails(n: Node, i: nat, constants: seq<byte>)
    requires NodeOk(n, i, |constants|)
    ensures Decode(n, i, i, constants).Ok?
  {
  }

  /** A well-formed graph never makes the evaluator raise a structural error: what can stop it is
      the engine, or running out of inputs, and with too few inputs it never succeeds. */
  lemma {:induction false} NoStructuralError<V>(eng: Engine<V>, nodes: seq<Node>, constants: seq<byte>, inputs: seq<V>)
    requires forall i | 0 <= i < |nodes| :: NodeOk(nodes[i], i, |constants|)
    ensures var r := Eval(eng, nodes, constants, inputs);
            && (r.Err? ==> r.error.Compute? || (r.error.InputIndexPanic? && InputsTaken(nodes) > |inputs|))
            && (r.Ok? ==> InputsTaken(nodes) <= |inputs|)
  {
    if nodes != [] {
      var last := |nodes| - 1;
      NoStructuralError(eng, nodes[..last], constants, inputs);
      DecodeNeverFails(nodes[last], last, constants);
    }
  }

  /** No engine call fails. */
  ghost predicate NeverFails<V(!new)>(eng: Engine<V>) {
    && (forall op: nat, a: V, t: FheType :: eng.unary(op, a, t).Ok?)
    && (forall op: nat, a: V, b: V, t: FheType :: eng.binary(op, a, b, t).Ok?)
    && (forall op: nat, a: V, b: V, c: V, t: FheType :: eng.ternary(op, a, b, c, t).Ok?)
  }

  lemma {:induction false} NoEngineFault<V(!new)>(eng: Engine<V>, nodes: seq<Node>, constants: seq<byte>, inputs: seq<V>)
    requires NeverFails(eng)
    ensures var r := Eval(eng, nodes, constants, inputs); r.Err? ==> !r.error.Compute?
  {
    if nodes != [] {
      NoEngineFault(eng, nodes[..|nodes| - 1], constants, inputs);
    }
  }

  /** Encrypted and plaintext input nodes each take one input. */
  lemma {:induction false} InputsCounted(nodes: seq<Node>)
    ensures InputsTaken(nodes) == CountKind(nodes, KIND_INPUT) + CountKind(nodes, KIND_PLAINTEXT_INPUT)
  {
    if nodes != [] {
      InputsCounted(nodes[..|nodes| - 1]);
    }
  }

  lemma NodesOfEncoded(nodes: seq<Node>)
    requires |nodes| < 0x1_0000
    ensures NodesOf(EncodeNodes(nodes), |nodes|) == nodes
  {
    hide EncodeNodes, NodeView;
    forall i: nat | i < |nodes|
      ensures NodesOf(EncodeNodes(nodes), |nodes|)[i] == nodes[i]
    {
      NodesReadBack(nodes, i);
    }
  }

  /** Evaluating the serialization, whatever bytes follow it, is evaluating the graph. */
  lemma EvaluateSerialized<V>(eng: Engine<V>, g: Graph, trailing: seq<byte>, inputs: seq<V>)
    requires KnownKinds(g) && WithinLimits(g)
    ensures EvaluateGraph(eng, Serialize(g) + trailing, inputs)
         == if |inputs| < CountKind(g.nodes, KIND_INPUT)
            then Err(NotEnoughInputs(CountKind(g.nodes, KIND_INPUT), |inputs|))
            else OutputsOf(g.nodes, Eval(eng, g.nodes, g.constants, inputs))
  {
    hide Serialize, Header, EncodeNodes, ParseGraph, NumNodes, ConstantsLen, CountKind, NodesOf, Eval, Outputs;
    HeaderExact(g);
    LimitsBoundNodes(g);
    ParsedSections(g, trailing);
    NodesOfEncoded(g.nodes);
  }

  /** The inputs are checked against the encrypted input nodes only, so on an engine that does not fail
      the evaluation panics exactly when the encrypted inputs are there and a plaintext one is missing,
      and succeeds exactly when there is one input for every input node of either kind. */
  lemma MissingInputPanicsIff<V(!new)>(eng: Engine<V>, g: Graph, trailing: seq<byte>, inputs: seq<V>)
    requires KnownKinds(g) && WithinLimits(g) && WellFormed(g) && NeverFails(eng)
    ensures var encrypted, plaintext := CountKind(g.nodes, KIND_INPUT), CountKind(g.nodes, KIND_PLAINTEXT_INPUT);
            var r := EvaluateGraph(eng, Serialize(g) + trailing, inputs);
            && (r == Err(InputIndexPanic) <==> encrypted <= |inputs| < encrypted + plaintext)
            && (r.Ok? <==> encrypted + plaintext <= |inputs|)
  {
    hide Eval, Outputs, Serialize, EvaluateGraph, NeverFails, NodeOk, Tiled;
    EvaluateSerialized(eng, g, trailing, inputs);
    NoStructuralError(eng, g.nodes, g.constants, inputs);
    NoEngineFault(eng, g.nodes, g.constants, inputs);
    InputsCounted(g.nodes);
  }

  /** The smallest case: one plaintext input, no encrypted ones, and no inputs at all pass the check. */
  lemma MissingPlaintextInputPanics<V>(eng: Engine<V>, ty: FheType)
    ensures var g := Push(EMPTY, PlaintextInputNode(ty));
            CountKind(g.nodes, KIND_INPUT) == 0 && EvaluateGraph(eng, Serialize(g), []) == Err(InputIndexPanic)
  {
    var g := Push(EMPTY, PlaintextInputNode(ty));
    var inputs: seq<V> := [];
    assert g.nodes[..0] == [];
    assert Serialize(g) + [] == Serialize(g);
    OneNodeCounts(g.nodes);
    EvaluateSerialized(eng, g, [], inputs);
    assert Eval(eng, [], g.constants, inputs) == Ok([]);
  }

  lemma OneNodeCounts(nodes: seq<Node>)
    requires |nodes| == 1
    ensures forall kind: byte :: CountKind(nodes, kind) == if nodes[0].kind == kind then 1 else 0
  {
    assert nodes[..0] == [];
  }
}
