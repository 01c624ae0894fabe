/** The graph builder: what each call does to the graph, the imperative builder proved against
    that, and the invariants every sequence of calls keeps. */
module GraphBuilding {
  import opened Arith
  import opened LittleEndian
  import opened FheTypes
  import opened GraphFormat

  // ---- the calls, as functions on graphs ----

  /** Node indices are u16. */
  function NextIndex(g: Graph): u16 {
    |g.nodes| % 0x1_0000
  }

  function Push(g: Graph, n: Node): Graph {
    g.(nodes := g.nodes + [n])
  }

  function InputNode(ty: byte): Node {
    Node(KIND_INPUT, 0, ty, NONE, NONE, NONE)
  }

  function PlaintextInputNode(ty: byte): Node {
    Node(KIND_PLAINTEXT_INPUT, 0, ty, NONE, NONE, NONE)
  }

  function OpNode(op: byte, ty: byte, a: u16, b: u16, c: u16): Node {
    Node(KIND_OP, op, ty, a, b, c)
  }

  function OutputNode(ty: byte, source: u16): Node {
    Node(KIND_OUTPUT, 0, ty, source, NONE, NONE)
  }

  /** The search of `add_constant_bytes` for an identical constant, from node i on. */
  predicate HoldsConstant(n: Node, constants: seq<byte>, ty: byte, data: seq<byte>) {
    && n.kind == KIND_CONSTANT && n.ty == ty
    && n.a + |data| <= |constants|
    && constants[n.a..n.a + |data|] == data
  }

  function FindConstant(g: Graph, ty: byte, data: seq<byte>, i: nat): (r: Option<nat>)
    requires i <= |g.nodes|
    ensures r.Some? ==> i <= r.value < |g.nodes| && HoldsConstant(g.nodes[r.value], g.constants, ty, data)
    ensures r.None? ==> forall j :: i <= j < |g.nodes| ==> !HoldsConstant(g.nodes[j], g.constants, ty, data)
    decreases |g.nodes| - i
  {
    if i == |g.nodes| then None
    else if HoldsConstant(g.nodes[i], g.constants, ty, data) then Some(i)
    else FindConstant(g, ty, data, i + 1)
  }

  /** Append a constant unconditionally. */
  function AppendConstant(g: Graph, ty: byte, data: seq<byte>): (Graph, u16) {
    (Graph(g.nodes + [Node(KIND_CONSTANT, 0, ty, |g.constants| % 0x1_0000, NONE, NONE)], g.constants + data),
     NextIndex(g))
  }

  /** `add_constant_bytes`: reuse an identical constant, or append. With `dedup` false, always append. */
  function AddConstantBytes(g: Graph, ty: byte, data: seq<byte>, dedup: bool): (Graph, u16) {
    var found := if dedup then FindConstant(g, ty, data, 0) else None;
    if found.Some? then (g, found.value % 0x1_0000) else AppendConstant(g, ty, data)
  }

  /** `add_constant`: the low bytes of a u128, zero-padded to the type's width. */
  function ConstantBytesOf(ty: byte, value: nat): seq<byte> {
    var width := if FromU8(ty).Some? then ByteWidth(ty) else 16;
    U128ToBytes(value, width)
  }

  // ---- the imperative builder ----

  class GraphBuilder {
    var nodes: seq<seq<byte>>
    var constants: seq<byte>
    var numInputs: byte
    var numPlaintextInputs: byte
    var numConstants: byte
    var numOps: byte
    var numOutputs: byte
    ghost var graph: Graph

    /** The raw bytes encode the ghost graph, and the counters count its kinds modulo 256. */
    ghost predicate Valid()
      reads this
    {
      && |nodes| == |graph.nodes|
      && (forall i | 0 <= i < |nodes| :: nodes[i] == EncodeNode(graph.nodes[i]))
      && constants == graph.constants
      && numInputs == CountKind(graph.nodes, KIND_INPUT) % 256
      && numPlaintextInputs == CountKind(graph.nodes, KIND_PLAINTEXT_INPUT) % 256
      && numConstants == CountKind(graph.nodes, KIND_CONSTANT) % 256
      && numOps == CountKind(graph.nodes, KIND_OP) % 256
      && numOutputs == CountKind(graph.nodes, KIND_OUTPUT) % 256
    }

    constructor ()
      ensures Valid() && graph == EMPTY
    {
      nodes, constants := [], [];
      numInputs, numPlaintextInputs, numConstants, numOps, numOutputs := 0, 0, 0, 0, 0;
      graph := EMPTY;
    }

    /** Appends the nine bytes; the caller has already bumped the kind's counter. */
    method PushNode(n: Node) returns (index: u16)
      requires |nodes| == |graph.nodes|
      modifies `nodes, `graph
      ensures nodes == old(nodes) + [EncodeNode(n)] && graph == Push(old(graph), n)
      ensures index == NextIndex(old(graph))
    {
      index := |nodes| % 0x1_0000;
      nodes := nodes + [EncodeNode(n)];
      graph := Push(graph, n);
    }

    method AddInput(ty: byte) returns (index: u16)
      requires Valid()
      modifies this
      ensures Valid() && graph == Push(old(graph), InputNode(ty)) && index == NextIndex(old(graph))
    {
      numInputs := (numInputs as int + 1) % 256;
      index := PushNode(InputNode(ty));
      CountPush(old(graph.nodes), InputNode(ty));
    }

    method AddPlaintextInput(ty: byte) returns (index: u16)
      requires Valid()
      modifies this
      ensures Valid() && graph == Push(old(graph), PlaintextInputNode(ty)) && index == NextIndex(old(graph))
    {
      numPlaintextInputs := (numPlaintextInputs as int + 1) % 256;
      index := PushNode(PlaintextInputNode(ty));
      CountPush(old(graph.nodes), PlaintextInputNode(ty));
    }

    method AddConstant(ty: byte, value: nat) returns (index: u16)
      requires Valid()
      modifies this
      ensures Valid() && (graph, index) == AddConstantBytes(old(graph), ty, ConstantBytesOf(ty, value), true)
    {
      index := this.AddBytes(ty, ConstantBytesOf(ty, value));
    }

    method AddBytes(ty: byte, data: seq<byte>) returns (index: u16)
      requires Valid()
      modifies this
      ensures Valid() && (graph, index) == AddConstantBytes(old(graph), ty, data, true)
    {
      for i := 0 to |nodes|
        invariant Valid() && graph == old(graph)
        invariant FindConstant(graph, ty, data, 0) == FindConstant(graph, ty, data, i)
      {
        var node := nodes[i];
        NodeRoundTrip(graph.nodes[i]);
        if node[0] == KIND_CONSTANT && node[2] == ty {
          var offset := ReadU16(node, 3);
          var end := offset + |data|;
          if end <= |constants| && constants[offset..end] == data {
            return i % 0x1_0000;
          }
        }
      }
      index := AppendBytes(ty, data);
    }

    method AppendBytes(ty: byte, data: seq<byte>) returns (index: u16)
      requires Valid()
      modifies this
      ensures Valid() && (graph, index) == AppendConstant(old(graph), ty, data)
    {
      var node := Node(KIND_CONSTANT, 0, ty, |constants| % 0x1_0000, NONE, NONE);
      constants := constants + data;
      numConstants := (numConstants as int + 1) % 256;
      index := PushNode(node);
      graph := graph.(constants := constants);
      CountPush(old(graph.nodes), node);
    }

    method AddOp(op: byte, ty: byte, a: u16, b: u16) returns (index: u16)
      requires Valid()
      modifies this
      ensures Valid() && graph == Push(old(graph), OpNode(op, ty, a, b, NONE)) && index == NextIndex(old(graph))
    {
      numOps := (numOps as int + 1) % 256;
      index := PushNode(OpNode(op, ty, a, b, NONE));
      CountPush(old(graph.nodes), OpNode(op, ty, a, b, NONE));
    }

    method AddTernaryOp(op: byte, ty: byte, a: u16, b: u16, c: u16) returns (index: u16)
      requires Valid()
      modifies this
      ensures Valid() && graph == Push(old(graph), OpNode(op, ty, a, b, c)) && index == NextIndex(old(graph))
    {
      numOps := (numOps as int + 1) % 256;
      index := PushNode(OpNode(op, ty, a, b, c));
      CountPush(old(graph.nodes), OpNode(op, ty, a, b, c));
    }

    method AddOutput(ty: byte, source: u16) returns (index: u16)
      requires Valid()
      modifies this
      ensures Valid() && graph == Push(old(graph), OutputNode(ty, source)) && index == NextIndex(old(graph))
    {
      numOutputs := (numOutputs as int + 1) % 256;
      index := PushNode(OutputNode(ty, source));
      CountPush(old(graph.nodes), OutputNode(ty, source));
    }

    method Serialize() returns (buf: seq<byte>)
      requires Valid()
      ensures buf == GraphFormat.Serialize(graph)
    {
      buf := [1, numInputs, numPlaintextInputs, numConstants, numOps, numOutputs];
      buf := buf + ToLe(|constants| % 0x1_0000, 2);
      for i := 0 to |nodes|
        invariant buf == Header(graph) + EncodeNodes(graph.nodes[..i])
      {
        assert graph.nodes[..i + 1][..i] == graph.nodes[..i];
        buf := buf + nodes[i];
      }
      assert graph.nodes[..|nodes|] == graph.nodes;
      buf := buf + constants;
    }
  }

  lemma CountPush(nodes: seq<Node>, n: Node)
    ensures forall kind: byte :: CountKind(nodes + [n], kind) == CountKind(nodes, kind) + (if n.kind == kind then 1 else 0)
    ensures forall kind: byte :: (CountKind(nodes, kind) + 1) % 256 == (CountKind(nodes, kind) % 256 + 1) % 256
  {
    assert (nodes + [n])[..|nodes|] == nodes;
  }

  /** The nine bytes each call appends: inputs and outputs carry no operation, and an absent operand is
      two bytes 255. */
  lemma AppendedNodes(op: byte, ty: byte, a: u16, b: u16, c: u16)
    ensures HasBytes(InputNode(ty), [0, 0, ty, 255, 255, 255, 255, 255, 255])
    ensures HasBytes(PlaintextInputNode(ty), [1, 0, ty, 255, 255, 255, 255, 255, 255])
    ensures HasBytes(OpNode(op, ty, a, b, c), [3, op, ty, a % 256, a / 256, b % 256, b / 256, c % 256, c / 256])
    ensures HasBytes(OpNode(op, ty, a, b, NONE), [3, op, ty, a % 256, a / 256, b % 256, b / 256, 255, 255])
    ensures HasBytes(OpNode(op, ty, a, NONE, NONE), [3, op, ty, a % 256, a / 256, 255, 255, 255, 255])
    ensures HasBytes(OutputNode(ty, a), [4, 0, ty, a % 256, a / 256, 255, 255, 255, 255])
  {
  }

  /** A constant node names the offset of its bytes, which go to the end of the section. */
  lemma AppendedConstant(g: Graph, ty: byte, data: seq<byte>)
    requires |g.constants| < 0x1_0000
    ensures var (g', index) := AppendConstant(g, ty, data);
            && |g'.nodes| == |g.nodes| + 1 && g'.nodes[..|g.nodes|] == g.nodes && index == |g.nodes| % 0x1_0000
            && HasBytes(g'.nodes[|g.nodes|], [2, 0, ty, |g.constants| % 256, |g.constants| / 256, 255, 255, 255, 255])
            && g'.constants == g.constants + data
  {
  }

  /** The bytes of a u128 constant: its value modulo the width, and nothing past sixteen bytes. A type
      that does not exist gets sixteen. */
  lemma ConstantBytesAre(ty: byte, value: nat)
    ensures var bytes := ConstantBytesOf(ty, value);
            && |bytes| == (if ty <= 44 then ByteWidth(ty) else 16)
            && FromLe(bytes) == value % Pow2(8 * Min(|bytes|, 16))
            && forall k | 16 <= k < |bytes| :: bytes[k] == 0
  {
    hide ByteWidth, ToLe, FromLe, Pow2;
    var width := |ConstantBytesOf(ty, value)|;
    var kept := Min(width, 16);
    ToLePrefix(value, 16, kept);
    FromLePadded(ToLe(value, kept), width - kept);
    FromToLe(value, kept);
  }

  // ---- what every sequence of calls keeps ----

  /** Operands precede their node, sentinels come last, and a constant lies inside its section. */
  predicate NodeOk(n: Node, i: nat, constantsLen: nat) {
    && n.ty <= 44 && n.kind <= KIND_OUTPUT
    && (n.kind == KIND_CONSTANT ==> n.a + ByteWidth(n.ty) <= constantsLen)
    && (n.kind == KIND_OUTPUT ==> n.a < i)
    && (n.kind == KIND_OP ==>
      && n.a < i
      && (n.b < i || (n.b == NONE && n.c == NONE))
      && (n.c < i || n.c == NONE))
  }

  function ConstantWidth(n: Node): nat {
    if n.kind == KIND_CONSTANT && n.ty <= 44 then ByteWidth(n.ty) else 0
  }

  function ConstantBytes(nodes: seq<Node>): nat {
    if nodes == [] then 0 else ConstantBytes(nodes[..|nodes| - 1]) + ConstantWidth(nodes[|nodes| - 1])
  }

  /** Constant regions follow one another without gap or overlap. */
  predicate Tiled(nodes: seq<Node>) {
    nodes != [] ==>
      && Tiled(nodes[..|nodes| - 1])
      && (nodes[|nodes| - 1].kind == KIND_CONSTANT ==> nodes[|nodes| - 1].a == ConstantBytes(nodes[..|nodes| - 1]))
  }

  predicate WellFormed(g: Graph) {
    && (forall i | 0 <= i < |g.nodes| :: NodeOk(g.nodes[i], i, |g.constants|))
    && Tiled(g.nodes) && ConstantBytes(g.nodes) == |g.constants|
  }

  /** The bytes a constant node stands for. */
  function ConstantAt(g: Graph, i: nat): seq<byte>
    requires i < |g.nodes| && NodeOk(g.nodes[i], i, |g.constants|) && g.nodes[i].kind == KIND_CONSTANT
  {
    var n := g.nodes[i];
    g.constants[n.a..n.a + ByteWidth(n.ty)]
  }

  /** No two constant nodes share type and bytes. */
  predicate NoDuplicates(g: Graph)
    requires WellFormed(g)
  {
    forall i, j | 0 <= i < j < |g.nodes| && g.nodes[i].kind == KIND_CONSTANT && g.nodes[j].kind == KIND_CONSTANT
      && g.nodes[i].ty == g.nodes[j].ty :: ConstantAt(g, i) != ConstantAt(g, j)
  }

  /** g' has g's nodes and constants in front. */
  predicate Extends(g: Graph, g': Graph) {
    g.nodes <= g'.nodes && g.constants <= g'.constants
  }

  lemma PushKeepsWellFormed(g: Graph, n: Node)
    requires WellFormed(g) && NodeOk(n, |g.nodes|, |g.constants|) && n.kind != KIND_CONSTANT
    ensures WellFormed(Push(g, n)) && Extends(g, Push(g, n))
    ensures NoDuplicates(g) ==> NoDuplicates(Push(g, n))
  {
    assert Push(g, n).nodes[..|g.nodes|] == g.nodes;
    if NoDuplicates(g) {
      forall i | 0 <= i < |g.nodes| && g.nodes[i].kind == KIND_CONSTANT
        ensures ConstantAt(Push(g, n), i) == ConstantAt(g, i)
      {
      }
    }
  }

  lemma AppendKeepsWellFormed(g: Graph, ty: byte, data: seq<byte>)
    requires WellFormed(g) && ty <= 44 && |data| == ByteWidth(ty) && |g.constants| < 0x1_0000
    ensures WellFormed(AppendConstant(g, ty, data).0) && Extends(g, AppendConstant(g, ty, data).0)
    ensures ConstantAt(AppendConstant(g, ty, data).0, |g.nodes|) == data
    ensures forall i | 0 <= i < |g.nodes| && g.nodes[i].kind == KIND_CONSTANT ::
              ConstantAt(AppendConstant(g, ty, data).0, i) == ConstantAt(g, i)
  {
    hide ByteWidth;
    var g' := AppendConstant(g, ty, data).0;
    assert g'.nodes[..|g.nodes|] == g.nodes;
    var n := g'.nodes[|g.nodes|];
    assert n.a == |g.constants| && g'.constants[n.a..n.a + ByteWidth(ty)] == data;
    forall i | 0 <= i < |g'.nodes|
      ensures NodeOk(g'.nodes[i], i, |g'.constants|)
    {
      assert i < |g.nodes| ==> NodeOk(g.nodes[i], i, |g.constants|);
    }
    forall i | 0 <= i < |g.nodes| && g.nodes[i].kind == KIND_CONSTANT
      ensures ConstantAt(g', i) == ConstantAt(g, i)
    {
      assert NodeOk(g.nodes[i], i, |g.constants|);
    }
  }

  lemma AddConstantKeepsWellFormed(g: Graph, ty: byte, data: seq<byte>, dedup: bool)
    requires WellFormed(g) && ty <= 44 && |data| == ByteWidth(ty) && |g.constants| < 0x1_0000
    ensures WellFormed(AddConstantBytes(g, ty, data, dedup).0) && Extends(g, AddConstantBytes(g, ty, data, dedup).0)
    ensures dedup && NoDuplicates(g) ==> NoDuplicates(AddConstantBytes(g, ty, data, dedup).0)
  {
    AppendKeepsWellFormed(g, ty, data);
    if dedup && NoDuplicates(g) && FindConstant(g, ty, data, 0).None? {
      forall i | 0 <= i < |g.nodes| && g.nodes[i].kind == KIND_CONSTANT && g.nodes[i].ty == ty
        ensures ConstantAt(g, i) != data
      {
        assert !HoldsConstant(g.nodes[i], g.constants, ty, data);
      }
    }
  }
}
