/** Graphs over scalars of at most 128 bits, read four ways: as a type check, as arithmetic on numbers,
    as bytes, and as the mock digests that carry their plaintext inline. Where the type check passes the
    other three agree on every node. */
module ScalarGraphs {
  import opened Arith
  import opened LittleEndian
  import opened FheTypes
  import opened ScalarOps
  import opened Lanes
  import opened GraphFormat
  import opened Evaluator
  import opened MockEngine
  import opened TableRefinement

  // ---- type check ----

  const ILL_TYPED := 255

  function TypeConstant(t: FheType, bytes: seq<byte>): nat {
    if IsSmallScalar(t) && InRange(BytesToU128(bytes), t) then t else ILL_TYPED
  }

  /** Unary operations accept any small scalar and truncate to the node's type. */
  function TypeUnary(op: nat, a: nat, t: FheType): Result<nat, EngineFault> {
    if a <= 5 && t <= 5 then Ok(t) else Err(Panicked)
  }

  /** Binary operands have the node's type. */
  function TypeBinary(op: nat, a: nat, b: nat, t: FheType): Result<nat, EngineFault> {
    if a == t && b == t && t <= 5 then Ok(t) else Err(Panicked)
  }

  /** The only ternary is Select, with branches of the node's type. */
  function TypeTernary(op: nat, a: nat, b: nat, c: nat, t: FheType): Result<nat, EngineFault> {
    if op == SELECT && a <= 5 && b == t && c == t && t <= 5 then Ok(t) else Err(Panicked)
  }

  /** Type checking as an engine whose values are types. */
  const TYPES: Engine<nat> := Engine(TypeConstant, TypeUnary, TypeBinary, TypeTernary)

  // ---- numbers ----

  function NumberTernary(op: nat, a: nat, b: nat, c: nat, t: FheType): Result<nat, EngineFault> {
    if op == SELECT || op == SELECT_SCALAR then Ok(if a != 0 then b else c) else Ok(a)
  }

  /** The table-free evaluator on numbers. */
  const NUMBERS: Engine<nat> := Engine(
    (t, bytes) => BytesToU128(bytes),
    (op, a, t) => Ok(UnaryValue(op, a, t)),
    (op, a, b, t) => Ok(BinaryValue(op, a, b, t)),
    NumberTernary)

  // ---- inline mock digests ----

  function Reverse(s: seq<byte>): (r: seq<byte>)
    ensures |r| == |s|
  {
    if s == [] then [] else Reverse(s[1..]) + [s[0]]
  }

  /** `encode_mock_digest`: 16 zero bytes, then the masked value big-endian. */
  function EncodeMock(t: FheType, value: nat): (d: seq<byte>)
    ensures |d| == 32
  {
    Zeros(16) + Reverse(ToLe(Bits.And(value, TypeBitMask(t)), 16))
  }

  /** `decode_mock_identifier` */
  function DecodeMock(d: seq<byte>): nat {
    if |d| < 32 then 0 else FromLe(Reverse(d[16..32]))
  }

  function InlineTernary(op: nat, c: seq<byte>, x: seq<byte>, y: seq<byte>, t: FheType): Result<seq<byte>, EngineFault> {
    if op == SELECT || op == SELECT_SCALAR then Ok(if DecodeMock(c) != 0 then x else y) else Ok(c)
  }

  /** `mock_binary_compute`, `mock_unary_compute` and `mock_select` as an engine on 32-byte digests. */
  const INLINE: Engine<seq<byte>> := Engine(
    (t, bytes) => EncodeMock(t, BytesToU128(bytes)),
    (op, a, t) => Ok(EncodeMock(t, UnaryValue(op, DecodeMock(a), t))),
    (op, a, b, t) => Ok(EncodeMock(t, BinaryValue(op, DecodeMock(a), DecodeMock(b), t))),
    InlineTernary)

  lemma {:induction false} ReverseAppend(s: seq<byte>, x: byte)
    ensures Reverse(s + [x]) == [x] + Reverse(s)
  {
    if s == [] {
      assert [x][1..] == [];
    } else {
      assert (s + [x])[1..] == s[1..] + [x];
      ReverseAppend(s[1..], x);
    }
  }

  lemma {:induction false} ReverseTwice(s: seq<byte>)
    ensures Reverse(Reverse(s)) == s
  {
    if s != [] {
      ReverseAppend(Reverse(s[1..]), s[0]);
      ReverseTwice(s[1..]);
      assert s == [s[0]] + s[1..];
    }
  }

  /** Encoding and decoding an inline digest truncates to the type and nothing else. */
  lemma InlineRoundTrip(t: FheType, value: nat)
    ensures DecodeMock(EncodeMock(t, value)) == Bits.And(value, TypeBitMask(t))
    ensures InRange(value, t) ==> DecodeMock(EncodeMock(t, value)) == value
  {
    var masked := Bits.And(value, TypeBitMask(t));
    assert EncodeMock(t, value)[16..32] == Reverse(ToLe(masked, 16));
    ReverseTwice(ToLe(masked, 16));
    FromToLe(masked, 16);
    Pow2Literals();
    assert TypeBitMask(t) < U128;
    SmallMod(masked, U128);
    if InRange(value, t) {
      MaskedInRange(value, t);
    }
  }

  lemma {:induction false} ReversedAt(s: seq<byte>, k: nat)
    requires k < |s|
    ensures Reverse(s)[k] == s[|s| - 1 - k]
  {
    if k < |s| - 1 {
      ReversedAt(s[1..], k);
    }
  }

  /** Where the bytes of an inline digest are: sixteen zeros, then the value, most significant byte first. */
  lemma MockDigestBytes(t: FheType, value: nat, k: nat)
    requires k < 16
    ensures EncodeMock(t, value)[k] == 0
    ensures EncodeMock(t, value)[31 - k] == Quotient(value % Pow2(Width(t)), Pow2(8 * k)) % 256
  {
    hide Pow2, Bits.And, TypeBitMask, Width, ToLe;
    var masked := Bits.And(value, TypeBitMask(t));
    MaskIsWidth(t);
    Bits.AndMask(value, Width(t));
    ReversedAt(ToLe(masked, 16), 15 - k);
    ToLeAt(masked, 16, k);
  }

  // ---- agreement ----

  /** Bytes, or an uninitialized zero, standing for a number. */
  predicate Denotes(p: Plain, n: nat) {
    match p case Uninit => n == 0 case Known(bytes) => BytesToU128(bytes) == n
  }

  /** If a node is a well-typed scalar, its number, plain bytes and inline digest all say the same. */
  predicate Agree(t: nat, n: nat, p: Plain, d: seq<byte>) {
    t <= 5 ==> InRange(n, t) && Denotes(p, n) && d == EncodeMock(t, n)
  }

  predicate AllAgree(ts: seq<nat>, ns: seq<nat>, ps: seq<Plain>, ds: seq<seq<byte>>) {
    && |ts| == |ns| == |ps| == |ds|
    && forall i | 0 <= i < |ts| :: Agree(ts[i], ns[i], ps[i], ds[i])
  }

  lemma DenotedBytes(p: Plain, n: nat, t: FheType)
    requires Denotes(p, n)
    ensures BytesToU128(AsBytes(p, t)) == n && BytesToU128(RawBytes(p)) == n
  {
    ZerosAreZero(ByteWidth(t));
    ZerosAreZero(16);
  }

  /** A scalar result computed in range is stored without loss. */
  lemma StoredResult(v: nat, t: FheType)
    requires IsSmallScalar(t) && InRange(v, t)
    ensures Denotes(Known(U128ToBytes(v, ByteWidth(t))), v)
  {
    RangeFitsBytes(t);
    BytesRoundTrip(v, ByteWidth(t));
    SmallMod(v, Pow2(8 * ByteWidth(t)));
  }

  lemma ConstantAgrees(t: FheType, bytes: seq<byte>)
    ensures Agree(TypeConstant(t, bytes), BytesToU128(bytes), Known(bytes), EncodeMock(t, BytesToU128(bytes)))
  {
  }

  lemma UnaryAgrees(op: nat, t: FheType, ta: nat, n: nat, p: Plain, d: seq<byte>)
    requires Agree(ta, n, p, d) && IsSmallScalar(t) && ta <= 5
    ensures PlainUnary(op, p, t).Ok?
    ensures Agree(t, UnaryValue(op, n, t), PlainUnary(op, p, t).value, EncodeMock(t, UnaryValue(op, DecodeMock(d), t)))
  {
    hide UnaryValue, EncodeMock, DecodeMock, InRange, BytesToU128, U128ToBytes;
    DenotedBytes(p, n, t);
    InlineRoundTrip(ta, n);
    UnaryClosed(op, n, t);
    StoredResult(UnaryValue(op, n, t), t);
  }

  lemma BinaryAgrees(op: nat, t: FheType, n: nat, p: Plain, d: seq<byte>, n': nat, p': Plain, d': seq<byte>)
    requires Agree(t, n, p, d) && Agree(t, n', p', d') && IsSmallScalar(t)
    ensures PlainBinary(op, p, p', t).Ok?
    ensures Agree(t, BinaryValue(op, n, n', t), PlainBinary(op, p, p', t).value,
                  EncodeMock(t, BinaryValue(op, DecodeMock(d), DecodeMock(d'), t)))
  {
    hide BinaryValue, EncodeMock, DecodeMock, InRange, BytesToU128, U128ToBytes;
    DenotedBytes(p, n, t);
    DenotedBytes(p', n', t);
    InlineRoundTrip(t, n);
    InlineRoundTrip(t, n');
    BinaryClosed(op, n, n', t);
    StoredResult(BinaryValue(op, n, n', t), t);
  }

  lemma SelectAgrees(t: FheType, tc: nat, n: nat, p: Plain, d: seq<byte>, nx: nat, px: Plain, dx: seq<byte>,
                     ny: nat, py: Plain, dy: seq<byte>)
    requires Agree(tc, n, p, d) && Agree(t, nx, px, dx) && Agree(t, ny, py, dy) && tc <= 5 && t <= 5
    ensures Agree(t, if n != 0 then nx else ny, Known(SelectBytes(AsBytes(p, E_BOOL), RawBytes(px), RawBytes(py))),
                  if DecodeMock(d) != 0 then dx else dy)
  {
    hide EncodeMock, DecodeMock, InRange, BytesToU128;
    DenotedBytes(p, n, E_BOOL);
    DenotedBytes(px, nx, E_BOOL);
    DenotedBytes(py, ny, E_BOOL);
    InlineRoundTrip(tc, n);
  }

  /** One node, four ways. */
  lemma PerformAgrees(n: Node, constants: seq<byte>, nextInput: nat,
                      ts: seq<nat>, ns: seq<nat>, ps: seq<Plain>, ds: seq<seq<byte>>,
                      it: seq<nat>, inn: seq<nat>, ip: seq<Plain>, id: seq<seq<byte>>)
    requires AllAgree(ts, ns, ps, ds) && AllAgree(it, inn, ip, id)
    requires Perform(TYPES, n, ts, constants, it, nextInput).Ok?
    ensures var r := Perform(NUMBERS, n, ns, constants, inn, nextInput);
            var p := Perform(PLAIN, n, ps, constants, ip, nextInput);
            var d := Perform(INLINE, n, ds, constants, id, nextInput);
            && r.Ok? && p.Ok? && d.Ok?
            && Agree(Perform(TYPES, n, ts, constants, it, nextInput).value, r.value, p.value, d.value)
  {
    hide Agree, UnaryValue, BinaryValue, EncodeMock, DecodeMock, UnaryBytes, BinaryBytes, TernaryBytes, SelectBytes, ByteWidth;
    match Decode(n, |ts|, |ts|, constants).value
    case TakeInput =>
    case Encode(ty, bytes) =>
      ConstantAgrees(ty, bytes);
    case Unary(op, a, ty) =>
      UnaryAgrees(op, ty, ts[a], ns[a], ps[a], ds[a]);
    case Binary(op, a, b, ty) =>
      BinaryAgrees(op, ty, ns[a], ps[a], ds[a], ns[b], ps[b], ds[b]);
    case Ternary(op, a, b, c, ty) =>
      SelectAgrees(ty, ts[a], ns[a], ps[a], ds[a], ns[b], ps[b], ds[b], ns[c], ps[c], ds[c]);
    case Forward(source) =>
  }

  /** Wherever the type check passes, arithmetic on numbers, evaluation on bytes and evaluation on
      inline digests agree on every node. */
  lemma {:induction false} EvaluationsAgree(nodes: seq<Node>, constants: seq<byte>, it: seq<nat>, inn: seq<nat>, ip: seq<Plain>,
                                            id: seq<seq<byte>>)
    requires AllAgree(it, inn, ip, id)
    requires Eval(TYPES, nodes, constants, it).Ok?
    ensures var r := Eval(NUMBERS, nodes, constants, inn);
            var p := Eval(PLAIN, nodes, constants, ip);
            var d := Eval(INLINE, nodes, constants, id);
            && r.Ok? && p.Ok? && d.Ok?
            && AllAgree(Eval(TYPES, nodes, constants, it).value, r.value, p.value, d.value)
  {
    hide Perform, Agree;
    if nodes != [] {
      var front, n := nodes[..|nodes| - 1], nodes[|nodes| - 1];
      var ts := Eval(TYPES, nodes, constants, it).value;
      assert Eval(TYPES, front, constants, it).value == ts[..|front|];
      EvaluationsAgree(front, constants, it, inn, ip, id);
      PerformAgrees(n, constants, InputsTaken(front), ts[..|front|], Eval(NUMBERS, front, constants, inn).value,
                    Eval(PLAIN, front, constants, ip).value, Eval(INLINE, front, constants, id).value, it, inn, ip, id);
    }
  }

  /** The plaintext a digest of a number decrypts to: the number's bytes at the type's width. */
  lemma FitIsToLe(b: seq<byte>, n: nat, width: nat)
    requires BytesToU128(b) == n && n < Pow2(8 * width) && width <= 16
    ensures Fit(b, width) == ToLe(n, width)
  {
    var m := Min(|b|, 16);
    FromLePadded(b[..m], 16 - m);
    if |b| <= width {
      assert b[..m] == b;
      FromLePadded(b, width - |b|);
      ToFromLe(Fit(b, width));
    } else {
      ToFromLe(b[..m]);
      ToLePrefix(n, m, width);
      assert b[..m][..width] == b[..width];
    }
  }

  lemma DecryptsTo(table: Table, d: Digest, n: nat, t: FheType)
    requires KnownTo(table, d) && Denotes(View(table, d), n) && IsSmallScalar(t) && InRange(n, t)
    ensures DecryptCall(table, d, t) == Ok(ToLe(n, ByteWidth(t)))
  {
    hide ByteWidth, BytesToU128, Fit;
    RangeFitsBytes(t);
    DenotedBytes(View(table, d), n, t);
    FitIsToLe(AsBytes(View(table, d), t), n, ByteWidth(t));
  }

  lemma {:induction false} OutputsAgree(nodes: seq<Node>, ts: seq<nat>, ns: seq<nat>, ps: seq<Plain>, ds: seq<seq<byte>>)
    requires AllAgree(ts, ns, ps, ds) && |nodes| == |ts|
    ensures AllAgree(Outputs(nodes, ts), Outputs(nodes, ns), Outputs(nodes, ps), Outputs(nodes, ds))
  {
    hide Agree;
    if nodes != [] {
      var last := |nodes| - 1;
      OutputsAgree(nodes[..last], ts[..last], ns[..last], ps[..last], ds[..last]);
    }
  }

  /** The whole `evaluate_graph`, four ways: on any bytes whose type check passes, numbers, plain bytes
      and inline digests give agreeing outputs. */
  lemma GraphsAgree(data: seq<byte>, it: seq<nat>, inn: seq<nat>, ip: seq<Plain>, id: seq<seq<byte>>)
    requires AllAgree(it, inn, ip, id) && Evaluator.EvaluateGraph(TYPES, data, it).Ok?
    ensures var r := Evaluator.EvaluateGraph(NUMBERS, data, inn);
            var p := Evaluator.EvaluateGraph(PLAIN, data, ip);
            var d := Evaluator.EvaluateGraph(INLINE, data, id);
            && r.Ok? && p.Ok? && d.Ok?
            && AllAgree(Evaluator.EvaluateGraph(TYPES, data, it).value, r.value, p.value, d.value)
  {
    hide Eval, Outputs, AllAgree;
    var parsed := ParseGraph(data).value;
    var nodes := NodesOf(parsed.nodes, NumNodes(parsed.header));
    assert |it| == |inn| == |ip| == |id| by { AgreeLengths(it, inn, ip, id); }
    EvaluationsAgree(nodes, parsed.constants, it, inn, ip, id);
    OutputsAgree(nodes, Eval(TYPES, nodes, parsed.constants, it).value, Eval(NUMBERS, nodes, parsed.constants, inn).value,
                 Eval(PLAIN, nodes, parsed.constants, ip).value, Eval(INLINE, nodes, parsed.constants, id).value);
  }

  lemma AgreeLengths(ts: seq<nat>, ns: seq<nat>, ps: seq<Plain>, ds: seq<seq<byte>>)
    requires AllAgree(ts, ns, ps, ds)
    ensures |ts| == |ns| == |ps| == |ds|
  {
  }

  /** Inputs: digests of a table standing for in-range numbers of the given types. */
  predicate InputsDenote(table: Table, digests: seq<Digest>, types: seq<nat>, numbers: seq<nat>) {
    && |digests| == |types| == |numbers| && AllKnown(table, digests)
    && forall i | 0 <= i < |digests| ::
         types[i] <= 5 ==> InRange(numbers[i], types[i]) && Denotes(Views(table, digests)[i], numbers[i])
  }

  /** What `encode_constant` leaves behind is such an input: a coherent table that keeps all it knew, and
      a digest standing for the number. */
  lemma EncodedInputDenotes(table: Table, t: FheType, value: nat)
    requires Coherent(table) && IsSmallScalar(t) && InRange(value, t)
    ensures var bytes := ToLe(value, 16);
            var d, table' := DigestOf(t, bytes), table[DigestOf(t, bytes) := bytes];
            && Coherent(table') && Preserves(table, table')
            && KnownTo(table', d) && Denotes(View(table', d), value)
  {
    hide Coherent, Preserves, BytesToU128, Pow2;
    StorePreserves(table, t, ToLe(value, 16));
    RangeFitsBytes(t);
    Pow2Literals();
    BytesToU128IsFromLe(ToLe(value, 16));
    FromToLe(value, 16);
    SmallMod(value, U128);
  }

  /** And so is what `register_bytes` leaves under a digest the table did not know. */
  lemma RegisteredInputDenotes(table: Table, id: nat, bytes: seq<byte>)
    requires Coherent(table) && External(id) !in table
    ensures var d, table' := External(id), table[External(id) := bytes];
            && Coherent(table') && Preserves(table, table')
            && KnownTo(table', d) && Denotes(View(table', d), BytesToU128(bytes))
  {
  }

  function InlineInputs(types: seq<nat>, numbers: seq<nat>): (ds: seq<seq<byte>>)
    requires |types| == |numbers|
    ensures |ds| == |types|
  {
    seq(|types|, i requires 0 <= i < |types| => if types[i] <= 5 then EncodeMock(types[i], numbers[i]) else [])
  }

  /** The table engine on any type-checked graph: every output digest of small scalar type decrypts to
      the bytes of the number the table-free arithmetic gives, and the inline mock gives that number. */
  lemma TableAgreesWithNumbers(table: Table, data: seq<byte>, digests: seq<Digest>, types: seq<nat>, numbers: seq<nat>)
    requires Coherent(table) && InputsDenote(table, digests, types, numbers)
    requires Evaluator.EvaluateGraph(TYPES, data, types).Ok?
    ensures var ts := Evaluator.EvaluateGraph(TYPES, data, types).value;
            var r := EvaluateOn(table, data, digests);
            var ns := Evaluator.EvaluateGraph(NUMBERS, data, numbers);
            var ds := Evaluator.EvaluateGraph(INLINE, data, InlineInputs(types, numbers));
            && r.Ok? && ns.Ok? && ds.Ok?
            && |r.value.digests| == |ns.value| == |ds.value| == |ts|
            && forall i | 0 <= i < |ts| && ts[i] <= 5 ::
                 && DecryptCall(r.value.table, r.value.digests[i], ts[i]) == Ok(ToLe(ns.value[i], ByteWidth(ts[i])))
                 && DecodeMock(ds.value[i]) == ns.value[i]
  {
    hide Evaluator.EvaluateGraph, EvaluateOn, EncodeMock, DecodeMock, Coherent, DecryptCall, InRange, ByteWidth;
    var plains, inline := Views(table, digests), InlineInputs(types, numbers);
    EvaluateRefines(table, data, digests);
    GraphsAgree(data, types, numbers, plains, inline);
    var ts, ns := Evaluator.EvaluateGraph(TYPES, data, types).value, Evaluator.EvaluateGraph(NUMBERS, data, numbers).value;
    var r := EvaluateOn(table, data, digests).value;
    forall i | 0 <= i < |ts| && ts[i] <= 5
      ensures DecryptCall(r.table, r.digests[i], ts[i]) == Ok(ToLe(ns[i], ByteWidth(ts[i])))
      ensures DecodeMock(Evaluator.EvaluateGraph(INLINE, data, inline).value[i]) == ns[i]
    {
      assert r.digests[i] in r.digests;
      DecryptsTo(r.table, r.digests[i], ns[i], ts[i]);
      InlineRoundTrip(ts[i], ns[i]);
    }
  }
}
