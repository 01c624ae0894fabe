/** The binary graph format: nine-byte nodes, the serializer's layout and the parser's views. */
module GraphFormat {
  import opened Arith
  import opened LittleEndian
  import opened FheTypes

  type u16 = x: int | 0 <= x < 0x1_0000

  const NONE: u16 := 0xFFFF

  const KIND_INPUT: byte := 0
  const KIND_PLAINTEXT_INPUT: byte := 1
  const KIND_CONSTANT: byte := 2
  const KIND_OP: byte := 3
  const KIND_OUTPUT: byte := 4

  const HEADER_SIZE := 8
  const NODE_SIZE := 9

  datatype Node = Node(kind: byte, op: byte, ty: byte, a: u16, b: u16, c: u16)

  /** `push_node`: kind, op type, FHE type and three little-endian operands. */
  function EncodeNode(n: Node): (s: seq<byte>)
    ensures |s| == NODE_SIZE
  {
    [n.kind, n.op, n.ty] + ToLe(n.a, 2) + ToLe(n.b, 2) + ToLe(n.c, 2)
  }

  function ReadU16(s: seq<byte>, at: nat): u16
    requires at + 2 <= |s|
  {
    s[at] as int + 256 * s[at + 1] as int
  }

  /** The zero-copy `GraphNode` accessors, read all at once. */
  function NodeView(s: seq<byte>): Node
    requires |s| == NODE_SIZE
  {
    Node(s[0], s[1], s[2], ReadU16(s, 3), ReadU16(s, 5), ReadU16(s, 7))
  }

  lemma TwoBytes(v: u16)
    ensures ToLe(v, 2) == [v % 256, v / 256]
  {
    assert v / 256 < 256;
    assert ToLe(v, 2) == [v % 256] + ToLe(v / 256, 1);
    assert ToLe(v / 256, 1) == [(v / 256) % 256] + ToLe(v / 256 / 256, 0);
  }

  lemma NodeRoundTrip(n: Node)
    ensures NodeView(EncodeNode(n)) == n
  {
    TwoBytes(n.a);
    TwoBytes(n.b);
    TwoBytes(n.c);
  }

  function EncodeNodes(nodes: seq<Node>): (s: seq<byte>)
    ensures |s| == NODE_SIZE * |nodes|
  {
    if nodes == [] then [] else EncodeNodes(nodes[..|nodes| - 1]) + EncodeNode(nodes[|nodes| - 1])
  }

  lemma {:induction false} NodeSlice(nodes: seq<Node>, i: nat)
    requires i < |nodes|
    ensures EncodeNodes(nodes)[NODE_SIZE * i..NODE_SIZE * i + NODE_SIZE] == EncodeNode(nodes[i])
  {
    var last := |nodes| - 1;
    var front := EncodeNodes(nodes[..last]);
    if i < last {
      NodeSlice(nodes[..last], i);
      assert EncodeNodes(nodes)[NODE_SIZE * i..NODE_SIZE * i + NODE_SIZE]
          == front[NODE_SIZE * i..NODE_SIZE * i + NODE_SIZE];
    }
  }

  // ---- graphs and their serialized form ----

  /** What a `GraphBuilder` has accumulated: its nodes and its constants section. */
  datatype Graph = Graph(nodes: seq<Node>, constants: seq<byte>)

  const EMPTY := Graph([], [])

  function CountKind(nodes: seq<Node>, kind: byte): nat {
    if nodes == [] then 0
    else CountKind(nodes[..|nodes| - 1], kind) + (if nodes[|nodes| - 1].kind == kind then 1 else 0)
  }

  /** The per-kind counters are u8 and wrap. */
  function Header(g: Graph): (h: seq<byte>)
    ensures |h| == HEADER_SIZE
  {
    [1, CountKind(g.nodes, KIND_INPUT) % 256, CountKind(g.nodes, KIND_PLAINTEXT_INPUT) % 256,
     CountKind(g.nodes, KIND_CONSTANT) % 256, CountKind(g.nodes, KIND_OP) % 256,
     CountKind(g.nodes, KIND_OUTPUT) % 256] + ToLe(|g.constants| % 0x1_0000, 2)
  }

  function Serialize(g: Graph): seq<byte> {
    Header(g) + EncodeNodes(g.nodes) + g.constants
  }

  // ---- parsing ----

  datatype ParsedGraph = ParsedGraph(header: seq<byte>, nodes: seq<byte>, constants: seq<byte>)

  /** `num_nodes`: the sum of the five per-kind counts. */
  function NumNodes(header: seq<byte>): nat
    requires |header| == HEADER_SIZE
  {
    header[1] as int + header[2] + header[3] + header[4] + header[5]
  }

  function ConstantsLen(header: seq<byte>): u16
    requires |header| == HEADER_SIZE
  {
    ReadU16(header, 6)
  }

  function ParseGraph(data: seq<byte>): (p: Option<ParsedGraph>)
    ensures p.Some? ==> |p.value.header| == HEADER_SIZE && |p.value.nodes| == NODE_SIZE * NumNodes(p.value.header)
    ensures p.Some? ==> |p.value.constants| == ConstantsLen(p.value.header)
  {
    if |data| < HEADER_SIZE then None
    else
      var header := data[..HEADER_SIZE];
      var nodesEnd := HEADER_SIZE + NumNodes(header) * NODE_SIZE;
      var constantsEnd := nodesEnd + ConstantsLen(header);
      if |data| < constantsEnd then None
      else Some(ParsedGraph(header, data[HEADER_SIZE..nodesEnd], data[nodesEnd..constantsEnd]))
  }

  function GetNode(nodeBytes: seq<byte>, index: u16): Option<Node> {
    var offset := index * NODE_SIZE;
    if offset + NODE_SIZE > |nodeBytes| then None
    else Some(NodeView(nodeBytes[offset..offset + NODE_SIZE]))
  }

  // ---- round trip ----

  predicate KnownKinds(g: Graph) {
    forall n <- g.nodes :: n.kind <= KIND_OUTPUT
  }

  /** The size limits of the format: at most 255 nodes of each kind, 65535 constant bytes. */
  predicate WithinLimits(g: Graph) {
    && CountKind(g.nodes, KIND_INPUT) < 256
    && CountKind(g.nodes, KIND_PLAINTEXT_INPUT) < 256
    && CountKind(g.nodes, KIND_CONSTANT) < 256
    && CountKind(g.nodes, KIND_OP) < 256
    && CountKind(g.nodes, KIND_OUTPUT) < 256
    && |g.constants| < 0x1_0000
  }

  lemma {:induction false} KindsPartition(nodes: seq<Node>)
    requires forall n <- nodes :: n.kind <= KIND_OUTPUT
    ensures |nodes| == CountKind(nodes, KIND_INPUT) + CountKind(nodes, KIND_PLAINTEXT_INPUT)
                     + CountKind(nodes, KIND_CONSTANT) + CountKind(nodes, KIND_OP) + CountKind(nodes, KIND_OUTPUT)
  {
    if nodes != [] {
      var last := |nodes| - 1;
      assert nodes[last] in nodes;
      KindsPartition(nodes[..last]);
    }
  }

  lemma LimitsBoundNodes(g: Graph)
    requires KnownKinds(g) && WithinLimits(g)
    ensures |g.nodes| <= 5 * 255
  {
    KindsPartition(g.nodes);
  }

  /** What parsing the serialization gives back, followed by anything at all. */
  predicate ParsesBack(g: Graph, trailing: seq<byte>) {
    var p := ParseGraph(Serialize(g) + trailing);
    && p.Some?
    && p.value.header == Header(g)
    && NumNodes(p.value.header) == |g.nodes|
    && p.value.constants == g.constants
    && (forall i: u16 :: GetNode(p.value.nodes, i) == if i < |g.nodes| then Some(g.nodes[i]) else None)
  }

  lemma HeaderFields(g: Graph)
    ensures ConstantsLen(Header(g)) == |g.constants| % 0x1_0000
    ensures NumNodes(Header(g)) == CountKind(g.nodes, KIND_INPUT) % 256 + CountKind(g.nodes, KIND_PLAINTEXT_INPUT) % 256
                                 + CountKind(g.nodes, KIND_CONSTANT) % 256 + CountKind(g.nodes, KIND_OP) % 256
                                 + CountKind(g.nodes, KIND_OUTPUT) % 256
  {
    TwoBytes(|g.constants| % 0x1_0000);
  }

  lemma ParsedSections(g: Graph, trailing: seq<byte>)
    requires NumNodes(Header(g)) == |g.nodes| && ConstantsLen(Header(g)) == |g.constants|
    ensures ParseGraph(Serialize(g) + trailing)
         == Some(ParsedGraph(Header(g), EncodeNodes(g.nodes), g.constants))
  {
    var data := Serialize(g) + trailing;
    var nodesEnd := HEADER_SIZE + |g.nodes| * NODE_SIZE;
    assert data[..HEADER_SIZE] == Header(g);
    assert data[HEADER_SIZE..nodesEnd] == EncodeNodes(g.nodes);
    assert data[nodesEnd..nodesEnd + |g.constants|] == g.constants;
  }

  lemma WrapsOrFits(c: nat, m: nat)
    requires m > 0
    ensures c % m <= c
    ensures c % m == c <==> c < m
  {
    if c < m {
      DivModUnique(c, m, 0, c);
    }
    DivLe(c, m);
  }

  /** Reading the encoded nodes by index gives the nodes, and nothing past the last. */
  lemma NodesReadBack(nodes: seq<Node>, i: u16)
    ensures GetNode(EncodeNodes(nodes), i) == if i < |nodes| then Some(nodes[i]) else None
  {
    hide EncodeNodes, EncodeNode, NodeView;
    if i < |nodes| {
      NodeSlice(nodes, i);
      NodeRoundTrip(nodes[i]);
    }
  }

  /** Within the limits no header field wraps. */
  lemma HeaderExact(g: Graph)
    requires KnownKinds(g) && WithinLimits(g)
    ensures NumNodes(Header(g)) == |g.nodes| && ConstantsLen(Header(g)) == |g.constants|
    ensures Header(g)[1] == CountKind(g.nodes, KIND_INPUT)
  {
    HeaderFields(g);
    KindsPartition(g.nodes);
    WrapsOrFits(|g.constants|, 0x1_0000);
  }

  lemma ParsesBackWithinLimits(g: Graph, trailing: seq<byte>)
    requires KnownKinds(g) && WithinLimits(g)
    ensures ParsesBack(g, trailing)
  {
    hide Serialize, Header, EncodeNodes, ParseGraph, GetNode, NumNodes, ConstantsLen, CountKind;
    HeaderExact(g);
    ParsedSections(g, trailing);
    forall i: u16
      ensures GetNode(EncodeNodes(g.nodes), i) == if i < |g.nodes| then Some(g.nodes[i]) else None
    {
      NodesReadBack(g.nodes, i);
    }
  }

  lemma CountsWithinLimits(g: Graph)
    requires KnownKinds(g)
    requires NumNodes(Header(g)) == |g.nodes| && ConstantsLen(Header(g)) == |g.constants|
    ensures WithinLimits(g)
  {
    HeaderFields(g);
    KindsPartition(g.nodes);
    WrapsOrFits(|g.constants|, 0x1_0000);
    forall kind: byte
      ensures CountKind(g.nodes, kind) % 256 <= CountKind(g.nodes, kind)
      ensures CountKind(g.nodes, kind) % 256 == CountKind(g.nodes, kind) <==> CountKind(g.nodes, kind) < 256
    {
      WrapsOrFits(CountKind(g.nodes, kind), 256);
    }
  }

  /** Serialize and parse are inverse, whatever bytes follow, exactly within the size limits:
      beyond them a counter wraps and the parser sees fewer nodes or fewer constant bytes. */
  lemma SerializeParseInverse(g: Graph, trailing: seq<byte>)
    requires KnownKinds(g)
    ensures ParsesBack(g, trailing) <==> WithinLimits(g)
  {
    if WithinLimits(g) {
      ParsesBackWithinLimits(g, trailing);
    }
    if ParsesBack(g, trailing) {
      CountsWithinLimits(g);
    }
  }

  // ---- the layout, byte by byte ----

  lemma EncodedBytes(n: Node)
    ensures HasBytes(n, EncodeNode(n))
  {
    TwoBytes(n.a);
    TwoBytes(n.b);
    TwoBytes(n.c);
  }

  /** Where everything is: a version byte, the counts of inputs, plaintext inputs, constants, operations and
      outputs, the length of the constants, low byte first; nine bytes for each node; then the constants. */
  lemma SerializedLayout(g: Graph)
    requires WithinLimits(g)
    ensures var s, end := Serialize(g), 8 + 9 * |g.nodes|;
            && |s| == end + |g.constants|
            && s[0] == 1
            && s[1] == CountKind(g.nodes, 0) && s[2] == CountKind(g.nodes, 1) && s[3] == CountKind(g.nodes, 2)
            && s[4] == CountKind(g.nodes, 3) && s[5] == CountKind(g.nodes, 4)
            && s[6] == |g.constants| % 256 && s[7] == |g.constants| / 256
            && (forall i: nat | i < |g.nodes| :: HasBytes(g.nodes[i], s[8 + 9 * i..8 + 9 * i + 9]))
            && s[end..] == g.constants
  {
    hide EncodeNode, CountKind, HasBytes;
    TwoBytes(|g.constants|);
    WrapsOrFits(|g.constants|, 0x1_0000);
    CountsUnwrapped(g);
    var s := Serialize(g);
    assert s[..8] == Header(g);
    forall i: nat | i < |g.nodes|
      ensures HasBytes(g.nodes[i], s[8 + 9 * i..8 + 9 * i + 9])
    {
      EncodedBytes(g.nodes[i]);
      NodeSlice(g.nodes, i);
      assert s[8 + 9 * i..8 + 9 * i + 9] == EncodeNodes(g.nodes)[9 * i..9 * i + 9];
    }
  }

  lemma CountsUnwrapped(g: Graph)
    requires WithinLimits(g)
    ensures forall kind: byte | kind <= 4 :: CountKind(g.nodes, kind) % 256 == CountKind(g.nodes, kind)
  {
    hide CountKind;
    forall kind: byte | kind <= 4
      ensures CountKind(g.nodes, kind) % 256 == CountKind(g.nodes, kind)
    {
      WrapsOrFits(CountKind(g.nodes, kind), 256);
    }
  }

  /** Nodes and constant bytes that the first eight bytes announce. */
  function NodesAnnounced(data: seq<byte>): nat
    requires |data| >= 8
  {
    data[1] as int + data[2] as int + data[3] as int + data[4] as int + data[5] as int
  }

  function BytesAnnounced(data: seq<byte>): nat
    requires |data| >= 8
  {
    data[6] as int + 256 * data[7] as int
  }

  /** The parser accepts exactly the data that is at least as long as it announces. */
  lemma ParsesIff(data: seq<byte>)
    ensures ParseGraph(data).Some? <==> |data| >= 8 && |data| >= 8 + 9 * NodesAnnounced(data) + BytesAnnounced(data)
  {
  }

  /** What it hands out lies where the layout puts it, whatever the bytes. */
  lemma ParsedViews(data: seq<byte>, i: u16)
    requires |data| >= 8 && |data| >= 8 + 9 * NodesAnnounced(data) + BytesAnnounced(data)
    ensures ParseGraph(data).Some?
    ensures var p, count := ParseGraph(data).value, NodesAnnounced(data);
            && NumNodes(p.header) == count && ConstantsLen(p.header) == BytesAnnounced(data)
            && p.constants == data[8 + 9 * count..8 + 9 * count + BytesAnnounced(data)]
            && (i >= count ==> GetNode(p.nodes, i) == None)
            && (i < count ==> GetNode(p.nodes, i).Some? && HasBytes(GetNode(p.nodes, i).value, data[8 + 9 * i..8 + 9 * i + 9]))
  {
    ParsesIff(data);
    var count := NodesAnnounced(data);
    if i < count {
      SliceOfSlice(data, 8, 8 + 9 * count, 9 * i);
      ViewedBytes(data[8 + 9 * i..8 + 9 * i + 9]);
    }
    hide NodeView, HasBytes;
  }

  lemma SliceOfSlice(s: seq<byte>, lo: nat, hi: nat, at: nat)
    requires lo <= hi <= |s| && at + 9 <= hi - lo
    ensures s[lo..hi][at..at + 9] == s[lo + at..lo + at + 9]
  {
    var inner, outer := s[lo..hi][at..at + 9], s[lo + at..lo + at + 9];
    assert |inner| == |outer| == 9;
    assert forall k | 0 <= k < 9 :: inner[k] == s[lo..hi][at + k] == s[lo + at + k] == outer[k];
  }

  lemma ViewedBytes(s: seq<byte>)
    requires |s| == 9
    ensures HasBytes(NodeView(s), s)
  {
  }

  /** Nine bytes spell a node: kind, operation, type, and three operands, low byte first. */
  predicate HasBytes(n: Node, s: seq<byte>) {
    && |s| == 9 && n.kind == s[0] && n.op == s[1] && n.ty == s[2]
    && s[3] == n.a % 256 && s[4] == n.a / 256
    && s[5] == n.b % 256 && s[6] == n.b / 256
    && s[7] == n.c % 256 && s[8] == n.c / 256
  }
}
