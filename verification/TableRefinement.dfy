/** Evaluating digests through the mock engine's table refines evaluating plain byte values: every
    digest the run produces stands for the value a table-free evaluator computes, and no later store
    changes what a known digest stands for. */
module TableRefinement {
  import opened LittleEndian
  import opened FheTypes
  import opened Lanes
  import opened GraphFormat
  import opened Evaluator
  import opened MockEngine

  /** A plaintext value: bytes, or the zero of whatever type is asked for. */
  datatype Plain = Uninit | Known(bytes: seq<byte>)

  function AsBytes(p: Plain, t: FheType): seq<byte> {
    match p case Uninit => Zeros(ByteWidth(t)) case Known(bytes) => bytes
  }

  function RawBytes(p: Plain): seq<byte> {
    match p case Uninit => Zeros(16) case Known(bytes) => bytes
  }

  function KnownOr(r: Option<seq<byte>>): Result<Plain, EngineFault> {
    match r case Some(bytes) => Ok(Known(bytes)) case None => Err(Panicked)
  }

  function PlainUnary(op: nat, a: Plain, t: FheType): Result<Plain, EngineFault> {
    KnownOr(UnaryBytes(op, AsBytes(a, t), t))
  }

  function PlainBinary(op: nat, a: Plain, b: Plain, t: FheType): Result<Plain, EngineFault> {
    KnownOr(BinaryBytes(op, AsBytes(a, t), AsBytes(b, t), t))
  }

  function PlainTernary(op: nat, a: Plain, b: Plain, c: Plain, t: FheType): Result<Plain, EngineFault> {
    if op == SELECT then Ok(Known(SelectBytes(AsBytes(a, E_BOOL), RawBytes(b), RawBytes(c))))
    else KnownOr(TernaryBytes(op, AsBytes(a, t), AsBytes(b, t), AsBytes(c, t), t))
  }

  /** The table-free engine on plain values. */
  const PLAIN: Engine<Plain> := Engine((t, bytes) => Known(bytes), PlainUnary, PlainBinary, PlainTernary)

  // ---- tables that mean something ----

  /** Every keccak digest in the table maps to the value bytes it hashes. */
  ghost predicate Coherent(table: Table) {
    forall d :: d in table && d.Keccak? ==> d.preimage != [] && table[d] == d.preimage[1..]
  }

  predicate KnownTo(table: Table, d: Digest) {
    d == AllZero || d in table
  }

  /** What a known digest stands for. */
  function View(table: Table, d: Digest): Plain
    requires KnownTo(table, d)
  {
    if d == AllZero then Uninit else Known(table[d])
  }

  /** Everything the first table knows, the second knows with the same plaintext. */
  ghost predicate Preserves(table: Table, table': Table) {
    forall d :: KnownTo(table, d) ==> KnownTo(table', d) && View(table', d) == View(table, d)
  }

  /** A digest of a coherent table is stored under, and stands for, the bytes stored. */
  lemma StorePreserves(table: Table, t: FheType, bytes: seq<byte>)
    requires Coherent(table)
    ensures Coherent(Store(table, t, bytes).table) && Preserves(table, Store(table, t, bytes).table)
    ensures KnownTo(Store(table, t, bytes).table, Store(table, t, bytes).digest)
    ensures View(Store(table, t, bytes).table, Store(table, t, bytes).digest) == Known(bytes)
  {
    var d := DigestOf(t, bytes);
    assert d.preimage[1..] == bytes;
  }

  /** An engine call and its table-free counterpart: the same failure, or a table that preserves all
      it knew and a digest standing for the counterpart's value. */
  ghost predicate Steps(table: Table, spec: Result<Stored, EvalError>, v: Result<Plain, EvalError>) {
    match spec
    case Err(e) => v == Err(e)
    case Ok(stored) =>
      && Coherent(stored.table) && Preserves(table, stored.table) && KnownTo(stored.table, stored.digest)
      && v == Ok(View(stored.table, stored.digest))
  }

  lemma StoreSteps(table: Table, t: FheType, r: Option<seq<byte>>)
    requires Coherent(table)
    ensures Steps(table, FromEngine(StoreResult(table, t, r)), FromEngine(KnownOr(r)))
  {
    if r.Some? {
      StorePreserves(table, t, r.value);
    }
  }

  predicate AllKnown(table: Table, digests: seq<Digest>) {
    forall d <- digests :: KnownTo(table, d)
  }

  function Views(table: Table, digests: seq<Digest>): (vs: seq<Plain>)
    requires AllKnown(table, digests)
    ensures |vs| == |digests|
  {
    seq(|digests|, i requires 0 <= i < |digests| => View(table, digests[i]))
  }

  /** One node on the table and on plain values. */
  lemma PerformRefines(table: Table, n: Node, digests: seq<Digest>, constants: seq<byte>, inputs: seq<Digest>, nextInput: nat)
    requires Coherent(table) && AllKnown(table, digests) && AllKnown(table, inputs)
    ensures Steps(table, PerformOn(table, n, digests, constants, inputs, nextInput),
                  Perform(PLAIN, n, Views(table, digests), constants, Views(table, inputs), nextInput))
  {
    hide Coherent, UnaryBytes, BinaryBytes, TernaryBytes, SelectBytes, ByteWidth;
    var action := Decode(n, |digests|, |digests|, constants);
    if action.Ok? {
      match action.value
      case TakeInput =>
      case Encode(ty, bytes) =>
        StorePreserves(table, ty, bytes);
      case Unary(op, a, ty) =>
        StoreSteps(table, ty, UnaryBytes(op, AsBytes(View(table, digests[a]), ty), ty));
      case Binary(op, a, b, ty) =>
        StoreSteps(table, ty, BinaryBytes(op, AsBytes(View(table, digests[a]), ty), AsBytes(View(table, digests[b]), ty), ty));
      case Ternary(op, a, b, c, ty) =>
        TernaryRefines(table, op, digests[a], digests[b], digests[c], ty);
      case Forward(source) =>
    }
  }

  lemma TernaryRefines(table: Table, op: nat, a: Digest, b: Digest, c: Digest, t: FheType)
    requires Coherent(table) && KnownTo(table, a) && KnownTo(table, b) && KnownTo(table, c)
    ensures Steps(table, FromEngine(TernaryCall(table, op, a, b, c, t)),
                  FromEngine(PlainTernary(op, View(table, a), View(table, b), View(table, c), t)))
  {
    hide Coherent, TernaryBytes, ByteWidth;
    if op == SELECT {
      var x := RawBytes(View(table, b));
      StorePreserves(table, InferTypeFromLen(|x|), SelectBytes(AsBytes(View(table, a), E_BOOL), x, RawBytes(View(table, c))));
    } else {
      StoreSteps(table, t, TernaryBytes(op, AsBytes(View(table, a), t), AsBytes(View(table, b), t), AsBytes(View(table, c), t), t));
    }
  }

  lemma PreservedViews(table: Table, table': Table, digests: seq<Digest>)
    requires Preserves(table, table') && AllKnown(table, digests)
    ensures AllKnown(table', digests) && Views(table', digests) == Views(table, digests)
  {
  }

  /** Digest-table evaluation refines plain evaluation on every graph: same failure, or every node's
      digest stands for that node's plain value in the final table, where everything known at the
      start still stands for what it did. */
  lemma {:induction false} RunRefines(table: Table, nodes: seq<Node>, constants: seq<byte>, inputs: seq<Digest>)
    requires Coherent(table) && AllKnown(table, inputs)
    ensures var r := RunNodes(table, nodes, constants, inputs);
            var v := Eval(PLAIN, nodes, constants, Views(table, inputs));
            && (r.Err? ==> v == Err(r.error))
            && (r.Ok? ==>
              && Coherent(r.value.table) && Preserves(table, r.value.table)
              && AllKnown(r.value.table, r.value.digests) && v == Ok(Views(r.value.table, r.value.digests)))
  {
    hide Coherent, Perform, PerformOn;
    if nodes != [] {
      var front := nodes[..|nodes| - 1];
      RunRefines(table, front, constants, inputs);
      var r := RunNodes(table, front, constants, inputs);
      if r.Ok? {
        var n := nodes[|nodes| - 1];
        var mid := r.value.table;
        PreservedViews(table, mid, inputs);
        PerformRefines(mid, n, r.value.digests, constants, inputs, InputsTaken(front));
        var stored := PerformOn(mid, n, r.value.digests, constants, inputs, InputsTaken(front));
        if stored.Ok? {
          PreservedViews(mid, stored.value.table, r.value.digests);
          assert Views(stored.value.table, r.value.digests + [stored.value.digest])
              == Views(mid, r.value.digests) + [View(stored.value.table, stored.value.digest)];
        }
      }
    }
  }

  /** In particular a digest computed by some node stands for the same value at every later point. */
  lemma PlaintextNeverChanges(table: Table, nodes: seq<Node>, constants: seq<byte>, inputs: seq<Digest>, i: nat, k: nat)
    requires Coherent(table) && AllKnown(table, inputs) && i < k <= |nodes|
    requires RunNodes(table, nodes, constants, inputs).Ok?
    ensures RunNodes(table, nodes[..k], constants, inputs).Ok?
    ensures var early := RunNodes(table, nodes[..k], constants, inputs).value;
            var late := RunNodes(table, nodes, constants, inputs).value;
            && early.digests == late.digests[..k]
            && KnownTo(early.table, early.digests[i]) && KnownTo(late.table, late.digests[i])
            && View(early.table, early.digests[i]) == View(late.table, late.digests[i])
  {
    RunPrefix(table, nodes, constants, inputs, k);
    RunRefines(table, nodes, constants, inputs);
    RunRefines(table, nodes[..k], constants, inputs);
    EvalPrefix(PLAIN, nodes, constants, Views(table, inputs), k);
    var early := RunNodes(table, nodes[..k], constants, inputs).value;
    var late := RunNodes(table, nodes, constants, inputs).value;
    assert early.digests[i] in early.digests && late.digests[i] in late.digests;
    assert Views(early.table, early.digests)[i] == Views(late.table, late.digests)[..k][i];
  }

  lemma {:induction false} RunPrefix(table: Table, nodes: seq<Node>, constants: seq<byte>, inputs: seq<Digest>, k: nat)
    requires k <= |nodes| && RunNodes(table, nodes, constants, inputs).Ok?
    ensures RunNodes(table, nodes[..k], constants, inputs).Ok?
    ensures RunNodes(table, nodes[..k], constants, inputs).value.digests
         == RunNodes(table, nodes, constants, inputs).value.digests[..k]
    decreases |nodes|
  {
    hide PerformOn;
    var digests := RunNodes(table, nodes, constants, inputs).value.digests;
    if k == |nodes| {
      assert nodes[..k] == nodes && digests[..k] == digests;
    } else {
      var front := nodes[..|nodes| - 1];
      assert front[..k] == nodes[..k];
      RunPrefix(table, front, constants, inputs, k);
      assert digests[..k] == digests[..|front|][..k];
    }
  }

  lemma {:induction false} OutputViews(table: Table, nodes: seq<Node>, digests: seq<Digest>)
    requires |nodes| == |digests| && AllKnown(table, digests)
    ensures AllKnown(table, Outputs(nodes, digests))
    ensures Views(table, Outputs(nodes, digests)) == Outputs(nodes, Views(table, digests))
  {
    if nodes != [] {
      var last := |nodes| - 1;
      OutputViews(table, nodes[..last], digests[..last]);
      assert Views(table, digests)[..last] == Views(table, digests[..last]);
      assert digests[last] in digests;
    }
  }

  /** The whole `evaluate_graph`: outputs of the table engine stand for the outputs of the table-free
      evaluator, on any bytes at all. */
  lemma EvaluateRefines(table: Table, data: seq<byte>, inputs: seq<Digest>)
    requires Coherent(table) && AllKnown(table, inputs)
    ensures var r := EvaluateOn(table, data, inputs);
            var v := Evaluator.EvaluateGraph(PLAIN, data, Views(table, inputs));
            && (r.Err? ==> v == Err(r.error))
            && (r.Ok? ==>
              && Coherent(r.value.table) && Preserves(table, r.value.table)
              && AllKnown(r.value.table, r.value.digests) && v == Ok(Views(r.value.table, r.value.digests)))
  {
    hide RunNodes, Eval, Outputs, Coherent, Preserves;
    var p := ParseGraph(data);
    if p.Some? && |inputs| >= p.value.header[1] {
      var nodes := NodesOf(p.value.nodes, NumNodes(p.value.header));
      RunRefines(table, nodes, p.value.constants, inputs);
      var r := RunNodes(table, nodes, p.value.constants, inputs);
      if r.Ok? {
        OutputViews(r.value.table, nodes, r.value.digests);
      }
    }
  }

  // ---- failures, and which digest a result gets ----

  /** An engine call fails for an unknown digest exactly when an operand it looks up is neither all zero nor
      in the table. A selection looks up both branches. */
  lemma UnknownOperandsFail(table: Table, op: nat, a: Digest, b: Digest, c: Digest, t: FheType)
    ensures UnaryCall(table, op, a, t) == Err(UnknownDigest) <==> !KnownTo(table, a)
    ensures BinaryCall(table, op, a, b, t) == Err(UnknownDigest) <==> !KnownTo(table, a) || !KnownTo(table, b)
    ensures TernaryCall(table, op, a, b, c, t) == Err(UnknownDigest)
       <==> !KnownTo(table, a) || !KnownTo(table, b) || !KnownTo(table, c)
    ensures DecryptCall(table, a, t) == Err(UnknownDigest) <==> !KnownTo(table, a)
    ensures DecryptCall(table, a, t).Err? ==> DecryptCall(table, a, t) == Err(UnknownDigest)
  {
    hide UnaryBytes, BinaryBytes, TernaryBytes, SelectBytes, Zeros;
  }

  /** An uninitialized ciphertext decrypts to zero bytes of any type, and a known one to its bytes, cut or
      zero-padded to the width. */
  lemma DecryptedBytes(table: Table, d: Digest, t: FheType, k: nat)
    requires KnownTo(table, d) && k < ByteWidth(t)
    ensures DecryptCall(table, d, t).Ok? && |DecryptCall(table, d, t).value| == ByteWidth(t)
    ensures DecryptCall(table, d, t).value[k] == if d != AllZero && k < |table[d]| then table[d][k] else 0
  {
    hide ByteWidth;
  }

  /** Digests are equal only for the same type and bytes. */
  lemma DigestsDiffer(t: FheType, x: seq<byte>, t': FheType, y: seq<byte>)
    ensures DigestOf(t, x) == DigestOf(t', y) <==> t == t' && x == y
  {
    assert DigestOf(t, x).preimage[1..] == x && DigestOf(t', y).preimage[1..] == y;
    assert DigestOf(t, x).preimage[0] == t && DigestOf(t', y).preimage[0] == t';
  }

  /** The result of a unary or binary call is known under the digest of its type and bytes. */
  lemma ResultDigest(table: Table, op: nat, a: Digest, b: Digest, t: FheType)
    ensures var r := UnaryCall(table, op, a, t);
            r.Ok? ==> r.value.digest in r.value.table && r.value.digest == DigestOf(t, r.value.table[r.value.digest])
    ensures var r := BinaryCall(table, op, a, b, t);
            r.Ok? ==> r.value.digest in r.value.table && r.value.digest == DigestOf(t, r.value.table[r.value.digest])
  {
    hide UnaryBytes, BinaryBytes;
  }

  /** A selection hashes the chosen branch under a type guessed from the length of the first branch, 8192
      bytes or not. So choosing between results of one type gives back the chosen digest itself exactly
      for EUint64, and for EVectorU32 among the arithmetic vectors; any other type changes it. */
  lemma SelectReturnsDigestIff(table: Table, c: Digest, t: FheType, x: seq<byte>, y: seq<byte>)
    requires KnownTo(table, c) && |x| == |y| == ByteWidth(t)
    requires DigestOf(t, x) in table && table[DigestOf(t, x)] == x && DigestOf(t, y) in table && table[DigestOf(t, y)] == y
    ensures var r := SelectCall(table, c, DigestOf(t, x), DigestOf(t, y));
            && r.Ok? && r.value.digest in r.value.table
            && var chosen := if BytesToU128(AsBytes(View(table, c), E_BOOL)) != 0 then x else y;
               && r.value.table[r.value.digest] == chosen
               && (r.value.digest == DigestOf(t, chosen) <==> t == if ByteWidth(t) == 8192 then E_VECTOR_U32 else E_UINT64)
  {
    hide ByteWidth, BytesToU128;
    var chosen := if BytesToU128(AsBytes(View(table, c), E_BOOL)) != 0 then x else y;
    DigestsDiffer(InferTypeFromLen(|x|), chosen, t, chosen);
  }
}
