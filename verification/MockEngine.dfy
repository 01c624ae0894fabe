/** The mock compute engine: a table from digests to plaintext bytes. The hash is modelled as a free
    constructor, so digests of different preimages differ and none is the all-zero digest. */
module MockEngine {
  import opened LittleEndian
  import opened FheTypes
  import opened ScalarOps
  import opened Lanes
  import opened GraphFormat
  import opened Evaluator

  /** A ciphertext digest: all zeros (uninitialized account), a keccak digest, or one registered
      from outside. */
  datatype Digest = AllZero | Keccak(preimage: seq<byte>) | External(id: nat)

  type Table = map<Digest, seq<byte>>

  /** `mock_digest_bytes`: hash of the type discriminant and the value bytes. */
  function DigestOf(t: FheType, bytes: seq<byte>): Digest {
    Keccak([t] + bytes)
  }

  /** `lookup`: the all-zero digest stands for a zero of the expected type. */
  function Lookup(table: Table, d: Digest, t: FheType): Result<seq<byte>, EngineFault> {
    if d == AllZero then Ok(Zeros(ByteWidth(t)))
    else if d in table then Ok(table[d])
    else Err(UnknownDigest)
  }

  /** `lookup_raw`: without a type, the all-zero digest stands for 16 zero bytes. */
  function LookupRaw(table: Table, d: Digest): Result<seq<byte>, EngineFault> {
    if d == AllZero then Ok(Zeros(16))
    else if d in table then Ok(table[d])
    else Err(UnknownDigest)
  }

  function InferTypeFromLen(len: nat): FheType {
    if len == 8192 then E_VECTOR_U32 else E_UINT64
  }

  /** What an engine call leaves: the table and the digest of the result. */
  datatype Stored = Stored(table: Table, digest: Digest)

  function Store(table: Table, t: FheType, bytes: seq<byte>): Stored {
    var d := DigestOf(t, bytes);
    Stored(table[d := bytes], d)
  }

  function StoreResult(table: Table, t: FheType, r: Option<seq<byte>>): Result<Stored, EngineFault> {
    match r case Some(bytes) => Ok(Store(table, t, bytes)) case None => Err(Panicked)
  }

  function UnaryCall(table: Table, op: nat, a: Digest, t: FheType): Result<Stored, EngineFault> {
    match Lookup(table, a, t)
    case Err(f) => Err(f)
    case Ok(av) => StoreResult(table, t, UnaryBytes(op, av, t))
  }

  function BinaryCall(table: Table, op: nat, a: Digest, b: Digest, t: FheType): Result<Stored, EngineFault> {
    match Lookup(table, a, t)
    case Err(f) => Err(f)
    case Ok(av) =>
      match Lookup(table, b, t)
      case Err(f) => Err(f)
      case Ok(bv) => StoreResult(table, t, BinaryBytes(op, av, bv, t))
  }

  function SelectCall(table: Table, c: Digest, x: Digest, y: Digest): Result<Stored, EngineFault> {
    match Lookup(table, c, E_BOOL)
    case Err(f) => Err(f)
    case Ok(cv) =>
      match LookupRaw(table, x)
      case Err(f) => Err(f)
      case Ok(xv) =>
        match LookupRaw(table, y)
        case Err(f) => Err(f)
        case Ok(yv) => Ok(Store(table, InferTypeFromLen(|xv|), SelectBytes(cv, xv, yv)))
  }

  function TernaryCall(table: Table, op: nat, a: Digest, b: Digest, c: Digest, t: FheType): Result<Stored, EngineFault> {
    if op == SELECT then SelectCall(table, a, b, c)
    else
      match Lookup(table, a, t)
      case Err(f) => Err(f)
      case Ok(av) =>
        match Lookup(table, b, t)
        case Err(f) => Err(f)
        case Ok(bv) =>
          match Lookup(table, c, t)
          case Err(f) => Err(f)
          case Ok(cv) => StoreResult(table, t, TernaryBytes(op, av, bv, cv, t))
  }

  /** `decrypt`: the looked-up bytes, extended or truncated to the type's width. */
  function DecryptCall(table: Table, d: Digest, t: FheType): Result<seq<byte>, EngineFault> {
    match Lookup(table, d, t)
    case Err(f) => Err(f)
    case Ok(value) => Ok(Fit(value, ByteWidth(t)))
  }

  function Fit(value: seq<byte>, width: nat): (r: seq<byte>)
    ensures |r| == width
  {
    var copy := Min(|value|, width);
    value[..copy] + Zeros(width - copy)
  }

  /** A call's outcome and the table it leaves; a failing call leaves the table alone. */
  predicate Answers(spec: Result<Stored, EngineFault>, before: Table, after: Table, r: Result<Digest, EngineFault>) {
    match spec
    case Ok(stored) => r == Ok(stored.digest) && after == stored.table
    case Err(f) => r == Err(f) && after == before
  }

  // ---- the stateful engine ----

  class MockComputeEngine {
    var table: Table

    constructor ()
      ensures table == map[]
    {
      table := map[];
    }

    method StoreBytes(t: FheType, bytes: seq<byte>) returns (d: Digest)
      modifies this
      ensures d == DigestOf(t, bytes) && table == old(table)[d := bytes]
    {
      d := DigestOf(t, bytes);
      table := table[d := bytes];
    }

    method UnaryOp(op: nat, a: Digest, t: FheType) returns (r: Result<Digest, EngineFault>)
      modifies this
      ensures Answers(UnaryCall(old(table), op, a, t), old(table), table, r)
    {
      var av := Lookup(table, a, t);
      if av.Err? { return Err(av.error); }
      var bytes := ComputeUnary(op, av.value, t);
      if bytes.None? { return Err(Panicked); }
      var d := StoreBytes(t, bytes.value);
      r := Ok(d);
    }

    method BinaryOp(op: nat, a: Digest, b: Digest, t: FheType) returns (r: Result<Digest, EngineFault>)
      modifies this
      ensures Answers(BinaryCall(old(table), op, a, b, t), old(table), table, r)
    {
      var av := Lookup(table, a, t);
      if av.Err? { return Err(av.error); }
      var bv := Lookup(table, b, t);
      if bv.Err? { return Err(bv.error); }
      var bytes := ComputeBinary(op, av.value, bv.value, t);
      if bytes.None? { return Err(Panicked); }
      var d := StoreBytes(t, bytes.value);
      r := Ok(d);
    }

    method Select(c: Digest, x: Digest, y: Digest) returns (r: Result<Digest, EngineFault>)
      modifies this
      ensures Answers(SelectCall(old(table), c, x, y), old(table), table, r)
    {
      var cv := Lookup(table, c, E_BOOL);
      if cv.Err? { return Err(cv.error); }
      var xv := LookupRaw(table, x);
      if xv.Err? { return Err(xv.error); }
      var yv := LookupRaw(table, y);
      if yv.Err? { return Err(yv.error); }
      var d := StoreBytes(InferTypeFromLen(|xv.value|), SelectBytes(cv.value, xv.value, yv.value));
      r := Ok(d);
    }

    method TernaryOp(op: nat, a: Digest, b: Digest, c: Digest, t: FheType) returns (r: Result<Digest, EngineFault>)
      modifies this
      ensures Answers(TernaryCall(old(table), op, a, b, c, t), old(table), table, r)
    {
      if op == SELECT {
        r := Select(a, b, c);
        return;
      }
      var av := Lookup(table, a, t);
      if av.Err? { return Err(av.error); }
      var bv := Lookup(table, b, t);
      if bv.Err? { return Err(bv.error); }
      var cv := Lookup(table, c, t);
      if cv.Err? { return Err(cv.error); }
      var bytes := ComputeTernary(op, av.value, bv.value, cv.value, t);
      if bytes.None? { return Err(Panicked); }
      var d := StoreBytes(t, bytes.value);
      r := Ok(d);
    }

    method EncodeConstantBytes(t: FheType, bytes: seq<byte>) returns (d: Digest)
      modifies this
      ensures d == DigestOf(t, bytes) && table == old(table)[d := bytes]
    {
      d := StoreBytes(t, bytes);
    }

    /** A u128 value is hashed and stored as all its 16 bytes, whatever the type. */
    method EncodeConstant(t: FheType, value: nat) returns (d: Digest)
      modifies this
      ensures d == DigestOf(t, ToLe(value, 16)) && table == old(table)[d := ToLe(value, 16)]
    {
      d := StoreBytes(t, ToLe(value, 16));
    }

    method Decrypt(d: Digest, t: FheType) returns (r: Result<seq<byte>, EngineFault>)
      ensures r == DecryptCall(table, d, t)
    {
      var value := Lookup(table, d, t);
      if value.Err? { return value; }
      r := Ok(Fit(value.value, ByteWidth(t)));
    }

    method RegisterBytes(d: Digest, value: seq<byte>)
      modifies this
      ensures table == old(table)[d := value]
    {
      table := table[d := value];
    }
  }

  /** Dispatch to the loops, refusing the operands on which a slice index would panic. */
  method ComputeUnary(op: nat, a: seq<byte>, t: FheType) returns (r: Option<seq<byte>>)
    ensures r == UnaryBytes(op, a, t)
  {
    hide UnaryWrites, UnaryValue, LanesReadable, BitUnary;
    if IsArithmeticVector(t) {
      if !LanesReadable(a, t) { return None; }
      UnaryIsWrites(op, a, t);
      var bytes := UnaryLoop(op, a, t);
      r := Some(bytes);
    } else if IsBitVector(t) {
      r := Some(BitUnary(op, a, ByteWidth(t)));
    } else {
      r := Some(U128ToBytes(UnaryValue(op, BytesToU128(a), t), ByteWidth(t)));
    }
  }

  method ComputeBinary(op: nat, a: seq<byte>, b: seq<byte>, t: FheType) returns (r: Option<seq<byte>>)
    ensures r == BinaryBytes(op, a, b, t)
  {
    hide BinaryWrites, GatherWrites, ScatterWrites, GetWrites, BinaryValue, LanesReadable, GatherReadable, ScatterReadable, BitBinary, Written;
    if IsArithmeticVector(t) {
      r := ComputeVector(op, a, b, t);
    } else if IsBitVector(t) {
      var bytes := BitLoop(op, a, b, ByteWidth(t));
      r := Some(bytes);
    } else {
      r := Some(U128ToBytes(BinaryValue(op, BytesToU128(a), BytesToU128(b), t), ByteWidth(t)));
    }
  }

  method ComputeVector(op: nat, a: seq<byte>, b: seq<byte>, t: FheType) returns (r: Option<seq<byte>>)
    requires IsArithmeticVector(t)
    ensures r == VectorBinary(op, a, b, t)
  {
    hide BinaryWrites, GatherWrites, ScatterWrites, GetWrites, LanesReadable, GatherReadable, ScatterReadable,
      ElementByteWidth, ElementCount, WriteAll, WritesOk;
    var bytes;
    if op == GATHER {
      if !GatherReadable(a, b, t) { return None; }
      GatherIsWrites(a, b, t);
      bytes := GatherLoop(a, b, t);
      r := Some(bytes);
    } else if op == SCATTER {
      if !ScatterReadable(a, b, t) { return None; }
      ScatterFits(a, b, t);
      bytes := ScatterLoop(Zeros(VECTOR_BYTES), a, b, t);
      r := Some(bytes);
    } else if op == COPY {
      r := Some(b);
    } else if op == GET {
      var index := Index(b, ElementByteWidth(t), 0);
      if index < ElementCount(t) && !ReadOk(a, index * ElementByteWidth(t)) { return None; }
      r := Written(Zeros(VECTOR_BYTES), GetWrites(a, b, t), t);
    } else {
      if !LanesReadable(a, t) || (!IsScalarOp(op) && !LanesReadable(b, t)) { return None; }
      BinaryIsWrites(op, a, b, t);
      bytes := BinaryLoop(op, a, b, t);
      r := Some(bytes);
    }
  }

  lemma ScatterFits(values: seq<byte>, b: seq<byte>, t: FheType)
    requires IsArithmeticVector(t)
    ensures WritesOk(ScatterWrites(values, b, t), t, VECTOR_BYTES)
  {
    WritesFit(ScatterWrites(values, b, t), t);
  }

  lemma SelectFits(c: seq<byte>, x: seq<byte>, y: seq<byte>, t: FheType)
    requires IsArithmeticVector(t)
    ensures WritesOk(SelectWrites(c, x, y, t), t, VECTOR_BYTES)
  {
    WritesFit(SelectWrites(c, x, y, t), t);
  }

  method ComputeTernary(op: nat, a: seq<byte>, b: seq<byte>, c: seq<byte>, t: FheType) returns (r: Option<seq<byte>>)
    ensures r == TernaryBytes(op, a, b, c, t)
  {
    hide ScatterWrites, BroadcastWrites, SelectWrites, LanesReadable, ScatterReadable, SelectReadable,
      ElementByteWidth, ElementCount, WriteAll, WritesOk;
    var bytes;
    if op == ASSIGN && IsArithmeticVector(t) {
      if !ScatterReadable(c, b, t) || !WritesOk(ScatterWrites(c, b, t), t, |a|) { return None; }
      bytes := ScatterLoop(a, c, b, t);
      r := Some(bytes);
    } else if op == ASSIGN_SCALARS && IsArithmeticVector(t) {
      if !LanesReadable(b, t) || !WritesOk(BroadcastWrites(c, b, t), t, |a|) { return None; }
      bytes := BroadcastLoop(a, b, c, t);
      r := Some(bytes);
    } else if op == SELECT_SCALAR && IsArithmeticVector(t) {
      if !SelectReadable(a, b, c, t) { return None; }
      SelectFits(a, b, c, t);
      bytes := SelectLoop(a, b, c, t);
      r := Some(bytes);
    } else if op == SELECT_SCALAR || op == SELECT {
      r := Some(SelectBytes(a, b, c));
    } else {
      r := Some(a);
    }
  }

  // ---- evaluating a graph on the stateful engine ----

  /** `Perform` with the table threaded through: only constants and operations store. */
  function PerformOn(table: Table, n: Node, digests: seq<Digest>, constants: seq<byte>, inputs: seq<Digest>, nextInput: nat)
    : Result<Stored, EvalError>
  {
    match Decode(n, |digests|, |digests|, constants)
    case Err(e) => Err(e)
    case Ok(TakeInput) => if nextInput < |inputs| then Ok(Stored(table, inputs[nextInput])) else Err(InputIndexPanic)
    case Ok(Encode(ty, bytes)) => Ok(Store(table, ty, bytes))
    case Ok(Unary(op, a, ty)) => FromEngine(UnaryCall(table, op, digests[a], ty))
    case Ok(Binary(op, a, b, ty)) => FromEngine(BinaryCall(table, op, digests[a], digests[b], ty))
    case Ok(Ternary(op, a, b, c, ty)) => FromEngine(TernaryCall(table, op, digests[a], digests[b], digests[c], ty))
    case Ok(Forward(source)) => Ok(Stored(table, digests[source]))
  }

  datatype Run = Run(table: Table, digests: seq<Digest>)

  function RunNext(sofar: Result<Run, EvalError>, n: Node, constants: seq<byte>, inputs: seq<Digest>, nextInput: nat)
    : (r: Result<Run, EvalError>)
  {
    match sofar
    case Err(e) => Err(e)
    case Ok(run) =>
      match PerformOn(run.table, n, run.digests, constants, inputs, nextInput)
      case Err(e) => Err(e)
      case Ok(stored) => Ok(Run(stored.table, run.digests + [stored.digest]))
  }

  /** The evaluation loop: the table and all digests after the nodes, or the first error. */
  function RunNodes(table: Table, nodes: seq<Node>, constants: seq<byte>, inputs: seq<Digest>): (r: Result<Run, EvalError>)
    ensures r.Ok? ==> |r.value.digests| == |nodes|
  {
    if nodes == [] then Ok(Run(table, []))
    else
      var front := nodes[..|nodes| - 1];
      RunNext(RunNodes(table, front, constants, inputs), nodes[|nodes| - 1], constants, inputs, InputsTaken(front))
  }

  function RunOutputs(nodes: seq<Node>, r: Result<Run, EvalError>): Result<Run, EvalError>
    requires r.Ok? ==> |r.value.digests| == |nodes|
  {
    match r case Err(e) => Err(e) case Ok(run) => Ok(Run(run.table, Outputs(nodes, run.digests)))
  }

  /** `evaluate_graph` on the table engine: the table afterwards and one digest per Output node. */
  function EvaluateOn(table: Table, data: seq<byte>, inputs: seq<Digest>): Result<Run, EvalError> {
    var p := ParseGraph(data);
    if p.None? then Err(InvalidGraph)
    else if |inputs| < p.value.header[1] then Err(NotEnoughInputs(p.value.header[1], |inputs|))
    else
      var nodes := NodesOf(p.value.nodes, NumNodes(p.value.header));
      RunOutputs(nodes, RunNodes(table, nodes, p.value.constants, inputs))
  }

  lemma {:induction false} RunFailureStays(table: Table, nodes: seq<Node>, constants: seq<byte>, inputs: seq<Digest>, k: nat)
    requires k <= |nodes| && RunNodes(table, nodes[..k], constants, inputs).Err?
    ensures RunNodes(table, nodes, constants, inputs) == RunNodes(table, nodes[..k], constants, inputs)
    decreases |nodes|
  {
    if k == |nodes| {
      assert nodes[..k] == nodes;
    } else {
      var front := nodes[..|nodes| - 1];
      assert front[..k] == nodes[..k];
      RunFailureStays(table, front, constants, inputs, k);
    }
  }

  /** The outcome of one node on the engine, as the loop body computes it. */
  method NodeDigest(engine: MockComputeEngine, n: Node, digests: seq<Digest>, constants: seq<byte>, inputs: seq<Digest>,
                    nextInput: nat) returns (r: Result<Digest, EvalError>)
    modifies engine
    ensures match PerformOn(old(engine.table), n, digests, constants, inputs, nextInput)
            case Ok(stored) => r == Ok(stored.digest) && engine.table == stored.table
            case Err(e) => r == Err(e)
  {
    hide UnaryCall, BinaryCall, TernaryCall, ByteWidth;
    var known := |digests|;
    var ft := FromU8(n.ty);
    if ft.None? { return Err(InvalidFheType(n.ty)); }
    if n.kind == KIND_INPUT || n.kind == KIND_PLAINTEXT_INPUT {
      if nextInput >= |inputs| { return Err(InputIndexPanic); }
      r := Ok(inputs[nextInput]);
    } else if n.kind == KIND_CONSTANT {
      var width := ByteWidth(ft.value);
      if n.a + width > |constants| { return Err(InvalidGraph); }
      var d := engine.EncodeConstantBytes(ft.value, constants[n.a..n.a + width]);
      r := Ok(d);
    } else if n.kind == KIND_OP {
      if n.a >= known { return Err(InvalidNodeReference(known, n.a)); }
      var out;
      if n.c != NONE && n.c < known && n.b < known {
        out := engine.TernaryOp(n.op, digests[n.a], digests[n.b], digests[n.c], ft.value);
      } else if n.b == NONE {
        out := engine.UnaryOp(n.op, digests[n.a], ft.value);
      } else {
        if n.b >= known { return Err(InvalidNodeReference(known, n.b)); }
        out := engine.BinaryOp(n.op, digests[n.a], digests[n.b], ft.value);
      }
      r := FromEngine(out);
    } else if n.kind == KIND_OUTPUT {
      if n.a >= known { return Err(InvalidNodeReference(known, n.a)); }
      r := Ok(digests[n.a]);
    } else {
      r := Err(UnknownNodeKind(n.kind));
    }
  }

  method EvaluateGraph(engine: MockComputeEngine, data: seq<byte>, inputs: seq<Digest>)
    returns (r: Result<seq<Digest>, EvalError>)
    modifies engine
    ensures match EvaluateOn(old(engine.table), data, inputs)
            case Ok(run) => r == Ok(run.digests) && engine.table == run.table
            case Err(e) => r == Err(e)
  {
    hide PerformOn;
    var p := ParseGraph(data);
    if p.None? { return Err(InvalidGraph); }
    var header, constants := p.value.header, p.value.constants;
    if |inputs| < header[1] { return Err(NotEnoughInputs(header[1], |inputs|)); }
    var count := NumNodes(header);
    ghost var nodes := NodesOf(p.value.nodes, count);
    ghost var start := engine.table;
    var digests: seq<Digest> := [];
    var inputIdx := 0;
    for i := 0 to count
      invariant |digests| == i && inputIdx == InputsTaken(nodes[..i])
      invariant RunNodes(start, nodes[..i], constants, inputs) == Ok(Run(engine.table, digests))
    {
      NodeRead(p.value.nodes, count, i);
      var n := NodeView(p.value.nodes[i * NODE_SIZE..i * NODE_SIZE + NODE_SIZE]);
      assert nodes[..i + 1][..i] == nodes[..i];
      var d := NodeDigest(engine, n, digests, constants, inputs, inputIdx);
      if d.Err? {
        RunFailureStays(start, nodes, constants, inputs, i + 1);
        return Err(d.error);
      }
      if TakesInput(n) {
        inputIdx := inputIdx + 1;
      }
      digests := digests + [d.value];
    }
    assert nodes[..count] == nodes;
    var outputs := CollectOutputs(p.value.nodes, count, digests);
    r := Ok(outputs);
  }

  /** The digests of the Output nodes, in node order. */
  method CollectOutputs(nodeBytes: seq<byte>, count: nat, digests: seq<Digest>) returns (outputs: seq<Digest>)
    requires |nodeBytes| == NODE_SIZE * count && |digests| == count
    ensures outputs == Outputs(NodesOf(nodeBytes, count), digests)
  {
    outputs := [];
    ghost var nodes := NodesOf(nodeBytes, count);
    for i := 0 to count
      invariant outputs == Outputs(nodes[..i], digests[..i])
    {
      NodeRead(nodeBytes, count, i);
      var n := NodeView(nodeBytes[i * NODE_SIZE..i * NODE_SIZE + NODE_SIZE]);
      assert nodes[..i + 1][..i] == nodes[..i] && digests[..i + 1][..i] == digests[..i];
      if n.kind == KIND_OUTPUT {
        outputs := outputs + [digests[i]];
      }
    }
    assert nodes[..count] == nodes && digests[..count] == digests;
  }

  lemma NodeRead(nodeBytes: seq<byte>, count: nat, i: nat)
    requires |nodeBytes| == NODE_SIZE * count && i < count
    ensures i * NODE_SIZE + NODE_SIZE <= |nodeBytes|
    ensures NodesOf(nodeBytes, count)[i] == NodeView(nodeBytes[i * NODE_SIZE..i * NODE_SIZE + NODE_SIZE])
  {
  }
}
