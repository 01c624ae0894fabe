/** Byte-array semantics of the mock engine: lane loops over a result buffer for arithmetic vectors,
    byte loops for bit vectors, one value for scalars. Each loop writes a list of lanes; what the
    buffer holds afterwards is decided by the last write to each lane. */
module Lanes {
  import opened Arith
  import opened LittleEndian
  import opened FheTypes
  import opened ScalarOps

  // ---- reading and writing one lane ----

  /** A slice `data[offset..]` panics past the end. */
  predicate ReadOk(data: seq<byte>, offset: nat) {
    offset <= |data|
  }

  /** `read_le_u128`: up to 16 bytes at an offset, zero-padded. */
  function ReadLe(data: seq<byte>, offset: nat, len: nat): nat {
    var end := Min(offset + Min(len, 16), |data|);
    if end <= offset then 0
    else FromLe(data[offset..end] + Zeros(16 - (end - offset)))
  }

  /** `write_le_u128`: the low bytes of the value over the bytes at an offset. */
  function PutLe(data: seq<byte>, offset: nat, len: nat, value: nat): (r: seq<byte>)
    requires offset + Min(len, 16) <= |data|
    ensures |r| == |data|
  {
    var copy := Min(len, 16);
    data[..offset] + ToLe(value, 16)[..copy] + data[offset + copy..]
  }

  function Lane(data: seq<byte>, size: nat, i: nat): nat {
    ReadLe(data, i * size, size)
  }

  lemma LaneBefore(i: nat, j: nat, size: nat)
    requires i < j
    ensures i * size + size <= j * size
  {
    MulLe(i + 1, j, size);
  }

  lemma ReadWithin(data: seq<byte>, offset: nat, len: nat)
    requires 0 < len <= 16 && offset + len <= |data|
    ensures ReadLe(data, offset, len) == FromLe(data[offset..offset + len])
    ensures ReadLe(data, offset, len) < Pow2(8 * len)
  {
    FromLePadded(data[offset..offset + len], 16 - len);
    FromLeBound(data[offset..offset + len]);
  }

  /** Writing lane i changes lane i and no other. */
  lemma LanePut(data: seq<byte>, size: nat, i: nat, value: nat, j: nat)
    requires 0 < size <= 16 && i * size + size <= |data| && j * size + size <= |data|
    ensures Lane(PutLe(data, i * size, size, value), size, j)
         == if i == j then value % Pow2(8 * size) else Lane(data, size, j)
  {
    hide ReadLe, FromLe, ToLe, Pow2;
    var r := PutLe(data, i * size, size, value);
    ReadWithin(r, j * size, size);
    ReadWithin(data, j * size, size);
    if i == j {
      ToLePrefix(value, 16, size);
      FromToLe(value, size);
      assert r[j * size..j * size + size] == ToLe(value, size);
    } else {
      if i < j { LaneBefore(i, j, size); } else { LaneBefore(j, i, size); }
      assert r[j * size..j * size + size] == data[j * size..j * size + size];
    }
  }

  // ---- lists of lane writes ----

  datatype Write = Skip | Put(lane: nat, value: nat)

  predicate WriteOk(w: Write, size: nat, length: nat) {
    w.Put? ==> w.lane * size + Min(size, 16) <= length
  }

  /** The buffer after the writes, in order. */
  function WriteAll(init: seq<byte>, size: nat, ws: seq<Write>): (r: seq<byte>)
    requires forall w <- ws :: WriteOk(w, size, |init|)
    ensures |r| == |init|
  {
    if ws == [] then init
    else
      var before := WriteAll(init, size, ws[..|ws| - 1]);
      assert WriteOk(ws[|ws| - 1], size, |init|);
      match ws[|ws| - 1]
      case Skip => before
      case Put(lane, value) => PutLe(before, lane * size, size, value)
  }

  /** The last value written to a lane. */
  function LastPut(ws: seq<Write>, lane: nat): Option<nat> {
    if ws == [] then None
    else
      var w := ws[|ws| - 1];
      if w.Put? && w.lane == lane then Some(w.value) else LastPut(ws[..|ws| - 1], lane)
  }

  /** Last write wins, and lanes nobody wrote keep their value. */
  lemma {:induction false} LaneAfterWrites(init: seq<byte>, size: nat, ws: seq<Write>, j: nat)
    requires 0 < size <= 16 && (forall w <- ws :: WriteOk(w, size, |init|)) && j * size + size <= |init|
    ensures Lane(WriteAll(init, size, ws), size, j)
         == match LastPut(ws, j) case None => Lane(init, size, j) case Some(v) => v % Pow2(8 * size)
  {
    if ws != [] {
      var last := |ws| - 1;
      LaneAfterWrites(init, size, ws[..last], j);
      var w := ws[last];
      assert w in ws;
      if w.Put? {
        LanePut(WriteAll(init, size, ws[..last]), size, w.lane, w.value, j);
      }
    }
  }

  /** Where the last write to a lane came from. */
  lemma {:induction false} LastPutIs(ws: seq<Write>, j: nat, i: nat)
    requires i < |ws| && ws[i].Put? && ws[i].lane == j
    requires forall k | i < k < |ws| :: ws[k].Skip? || ws[k].lane != j
    ensures LastPut(ws, j) == Some(ws[i].value)
  {
    if i < |ws| - 1 {
      LastPutIs(ws[..|ws| - 1], j, i);
    }
  }

  lemma {:induction false} NeverPut(ws: seq<Write>, j: nat)
    requires forall k | 0 <= k < |ws| :: ws[k].Skip? || ws[k].lane != j
    ensures LastPut(ws, j) == None
  {
    if ws != [] {
      NeverPut(ws[..|ws| - 1], j);
    }
  }

  /** Buffers of equal length whose lanes agree are equal. */
  lemma {:induction false} SameLanes(s: seq<byte>, t: seq<byte>, size: nat, count: nat)
    requires 0 < size <= 16 && |s| == |t| == count * size
    requires forall j: nat | j < count :: Lane(s, size, j) == Lane(t, size, j)
    ensures s == t
    decreases count
  {
    hide ReadLe, FromLe, ToLe, Pow2;
    if count > 0 {
      var k := (count - 1) * size;
      forall j: nat | j < count - 1
        ensures Lane(s[..k], size, j) == Lane(t[..k], size, j)
      {
        LaneBefore(j, count - 1, size);
        LaneOfPrefix(s, k, size, j);
        LaneOfPrefix(t, k, size, j);
        assert Lane(s, size, j) == Lane(t, size, j);
      }
      SameLanes(s[..k], t[..k], size, count - 1);
      assert Lane(s, size, count - 1) == Lane(t, size, count - 1);
      ReadWithin(s, k, size);
      ReadWithin(t, k, size);
      ToFromLe(s[k..]);
      ToFromLe(t[k..]);
      assert s == s[..k] + s[k..] && t == t[..k] + t[k..];
      assert s[k..k + size] == s[k..] && t[k..k + size] == t[k..];
    }
  }

  lemma LaneOfPrefix(s: seq<byte>, k: nat, size: nat, j: nat)
    requires 0 < size <= 16 && j * size + size <= k <= |s|
    ensures Lane(s[..k], size, j) == Lane(s, size, j)
  {
    hide ReadLe, FromLe, Pow2;
    ReadWithin(s, j * size, size);
    ReadWithin(s[..k], j * size, size);
    assert s[..k][j * size..j * size + size] == s[j * size..j * size + size];
  }

  // ---- the write lists of the vector operations ----

  /** `is_scalar_op` */
  predicate IsScalarOp(op: nat) {
    ADD_SCALAR <= op <= MAX_SCALAR || AND_SCALAR <= op <= XOR_SCALAR
    || IS_LESS_THAN_SCALAR <= op <= IS_LESS_OR_EQUAL_SCALAR
  }

  /** An index lane, cast to usize. */
  function Index(b: seq<byte>, size: nat, i: nat): nat {
    Lane(b, size, i) % U64
  }

  function BinaryWrites(op: nat, a: seq<byte>, b: seq<byte>, t: FheType): (ws: seq<Write>)
    requires IsArithmeticVector(t)
    ensures |ws| == ElementCount(t)
  {
    var size := ElementByteWidth(t);
    seq(ElementCount(t), i requires i >= 0 =>
      Put(i, BinaryValue(op, Lane(a, size, i), if IsScalarOp(op) then BytesToU128(b) else Lane(b, size, i),
                         ScalarElementType(t))))
  }

  function UnaryWrites(op: nat, a: seq<byte>, t: FheType): (ws: seq<Write>)
    requires IsArithmeticVector(t)
    ensures |ws| == ElementCount(t)
  {
    var size := ElementByteWidth(t);
    seq(ElementCount(t), i requires i >= 0 => Put(i, UnaryValue(op, Lane(a, size, i), ScalarElementType(t))))
  }

  function SelectWrites(c: seq<byte>, x: seq<byte>, y: seq<byte>, t: FheType): (ws: seq<Write>)
    requires IsArithmeticVector(t)
    ensures |ws| == ElementCount(t)
  {
    var size := ElementByteWidth(t);
    seq(ElementCount(t), i requires i >= 0 => Put(i, if Lane(c, size, i) != 0 then Lane(x, size, i) else Lane(y, size, i)))
  }

  function GatherWrites(a: seq<byte>, b: seq<byte>, t: FheType): (ws: seq<Write>)
    requires IsArithmeticVector(t)
    ensures |ws| == ElementCount(t)
  {
    var size, count := ElementByteWidth(t), ElementCount(t);
    seq(count, i requires i >= 0 => if Index(b, size, i) < count then Put(i, Lane(a, size, Index(b, size, i))) else Skip)
  }

  /** Lane i of the values goes to the lane its index names. */
  function ScatterWrites(values: seq<byte>, b: seq<byte>, t: FheType): (ws: seq<Write>)
    requires IsArithmeticVector(t)
    ensures |ws| == ElementCount(t)
  {
    var size, count := ElementByteWidth(t), ElementCount(t);
    seq(count, i requires i >= 0 => if Index(b, size, i) < count then Put(Index(b, size, i), Lane(values, size, i)) else Skip)
  }

  function BroadcastWrites(c: seq<byte>, b: seq<byte>, t: FheType): (ws: seq<Write>)
    requires IsArithmeticVector(t)
    ensures |ws| == ElementCount(t)
  {
    var size, count := ElementByteWidth(t), ElementCount(t);
    seq(count, i requires i >= 0 => if Index(b, size, i) < count then Put(Index(b, size, i), ReadLe(c, 0, size)) else Skip)
  }

  function GetWrites(a: seq<byte>, b: seq<byte>, t: FheType): seq<Write>
    requires IsArithmeticVector(t)
  {
    var size := ElementByteWidth(t);
    if Index(b, size, 0) < ElementCount(t) then [Put(0, Lane(a, size, Index(b, size, 0)))] else []
  }

  /** Reading every lane stays within the slice. */
  predicate LanesReadable(data: seq<byte>, t: FheType)
    requires IsArithmeticVector(t)
  {
    ReadOk(data, (ElementCount(t) - 1) * ElementByteWidth(t))
  }

  predicate WritesOk(ws: seq<Write>, t: FheType, length: nat)
    requires IsArithmeticVector(t)
  {
    forall w <- ws :: WriteOk(w, ElementByteWidth(t), length)
  }

  lemma LaneFits(t: FheType, i: nat)
    requires IsArithmeticVector(t) && i < ElementCount(t)
    ensures i * ElementByteWidth(t) + ElementByteWidth(t) <= VECTOR_BYTES
    ensures WriteOk(Put(i, 0), ElementByteWidth(t), VECTOR_BYTES)
  {
    LanesTile(t);
    MulLe(i + 1, ElementCount(t), ElementByteWidth(t));
  }

  /** Writes whose lanes are lanes of the vector fit a full-width buffer. */
  lemma WritesFit(ws: seq<Write>, t: FheType)
    requires IsArithmeticVector(t) && forall w <- ws :: w.Put? ==> w.lane < ElementCount(t)
    ensures WritesOk(ws, t, VECTOR_BYTES)
  {
    forall w <- ws
      ensures WriteOk(w, ElementByteWidth(t), VECTOR_BYTES)
    {
      if w.Put? {
        LaneFits(t, w.lane);
      }
    }
  }

  // ---- the operations on byte strings; None where a slice index panics ----

  /** The indices stay readable, and so does the lane each in-range index names. */
  predicate GatherReadable(a: seq<byte>, b: seq<byte>, t: FheType)
    requires IsArithmeticVector(t)
  {
    var size, count := ElementByteWidth(t), ElementCount(t);
    forall i: nat | i < count :: ReadOk(b, i * size) && (Index(b, size, i) < count ==> ReadOk(a, Index(b, size, i) * size))
  }

  predicate ScatterReadable(values: seq<byte>, b: seq<byte>, t: FheType)
    requires IsArithmeticVector(t)
  {
    var size, count := ElementByteWidth(t), ElementCount(t);
    forall i: nat | i < count :: ReadOk(b, i * size) && (Index(b, size, i) < count ==> ReadOk(values, i * size))
  }

  predicate SelectReadable(c: seq<byte>, x: seq<byte>, y: seq<byte>, t: FheType)
    requires IsArithmeticVector(t)
  {
    var size, count := ElementByteWidth(t), ElementCount(t);
    forall i: nat | i < count :: ReadOk(c, i * size) && ReadOk(if Lane(c, size, i) != 0 then x else y, i * size)
  }

  /** Writes over a buffer, unless one of them is out of range. */
  function Written(init: seq<byte>, ws: seq<Write>, t: FheType): Option<seq<byte>>
    requires IsArithmeticVector(t)
  {
    if WritesOk(ws, t, |init|) then Some(WriteAll(init, ElementByteWidth(t), ws)) else None
  }

  function VectorBinary(op: nat, a: seq<byte>, b: seq<byte>, t: FheType): Option<seq<byte>>
    requires IsArithmeticVector(t)
  {
    var blank := Zeros(VECTOR_BYTES);
    if op == GATHER then if GatherReadable(a, b, t) then Written(blank, GatherWrites(a, b, t), t) else None
    else if op == SCATTER then if ScatterReadable(a, b, t) then Written(blank, ScatterWrites(a, b, t), t) else None
    else if op == COPY then Some(b)
    else if op == GET then
      var index := Index(b, ElementByteWidth(t), 0);
      if index < ElementCount(t) && !ReadOk(a, index * ElementByteWidth(t)) then None
      else Written(blank, GetWrites(a, b, t), t)
    else if LanesReadable(a, t) && (IsScalarOp(op) || LanesReadable(b, t)) then Written(blank, BinaryWrites(op, a, b, t), t)
    else None
  }

  /** A missing byte of a short bit vector reads as 0. */
  function ByteAt(s: seq<byte>, i: nat): byte {
    if i < |s| then s[i] else 0
  }

  function BitBinary(op: nat, a: seq<byte>, b: seq<byte>, width: nat): (r: seq<byte>)
    ensures |r| == width
  {
    seq(width, i requires i >= 0 =>
      BinaryValue(op, ByteAt(a, i), if IsScalarOp(op) then BytesToU128(b) else ByteAt(b, i), E_UINT8) % 256)
  }

  function BitUnary(op: nat, a: seq<byte>, width: nat): (r: seq<byte>)
    ensures |r| == width
  {
    seq(width, i requires i >= 0 => UnaryValue(op, ByteAt(a, i), E_UINT8) % 256)
  }

  /** `mock_binary_compute_value_bytes` */
  function BinaryBytes(op: nat, a: seq<byte>, b: seq<byte>, t: FheType): Option<seq<byte>> {
    if IsArithmeticVector(t) then VectorBinary(op, a, b, t)
    else if IsBitVector(t) then Some(BitBinary(op, a, b, ByteWidth(t)))
    else Some(U128ToBytes(BinaryValue(op, BytesToU128(a), BytesToU128(b), t), ByteWidth(t)))
  }

  /** `mock_unary_compute_value_bytes` */
  function UnaryBytes(op: nat, a: seq<byte>, t: FheType): Option<seq<byte>> {
    if IsArithmeticVector(t) then
      if LanesReadable(a, t) then Written(Zeros(VECTOR_BYTES), UnaryWrites(op, a, t), t) else None
    else if IsBitVector(t) then Some(BitUnary(op, a, ByteWidth(t)))
    else Some(U128ToBytes(UnaryValue(op, BytesToU128(a), t), ByteWidth(t)))
  }

  /** `mock_select_value_bytes`: a nonzero condition takes the first branch, whatever its width. */
  function SelectBytes(c: seq<byte>, x: seq<byte>, y: seq<byte>): seq<byte> {
    if BytesToU128(c) != 0 then x else y
  }

  /** `mock_ternary_compute_value_bytes` */
  function TernaryBytes(op: nat, a: seq<byte>, b: seq<byte>, c: seq<byte>, t: FheType): Option<seq<byte>> {
    if op == ASSIGN && IsArithmeticVector(t) then
      if ScatterReadable(c, b, t) then Written(a, ScatterWrites(c, b, t), t) else None
    else if op == ASSIGN_SCALARS && IsArithmeticVector(t) then
      if LanesReadable(b, t) then Written(a, BroadcastWrites(c, b, t), t) else None
    else if op == SELECT_SCALAR && IsArithmeticVector(t) then
      if SelectReadable(a, b, c, t) then Written(Zeros(VECTOR_BYTES), SelectWrites(a, b, c, t), t) else None
    else if op == SELECT_SCALAR || op == SELECT then Some(SelectBytes(a, b, c))
    else Some(a)
  }

  // ---- the loops ----

  /** `copy_from_slice` of a value's low bytes into the buffer. */
  method WriteLane(result: array<byte>, offset: nat, len: nat, value: nat)
    requires offset + Min(len, 16) <= result.Length
    modifies result
    ensures result[..] == PutLe(old(result[..]), offset, len, value)
  {
    var bytes := ToLe(value, 16);
    forall k | 0 <= k < Min(len, 16) {
      result[offset + k] := bytes[k];
    }
  }

  lemma WriteNext(init: seq<byte>, size: nat, ws: seq<Write>, i: nat)
    requires i < |ws| && forall w <- ws :: WriteOk(w, size, |init|)
    ensures WriteOk(ws[i], size, |init|)
    ensures WriteAll(init, size, ws[..i + 1])
         == match ws[i] case Skip => WriteAll(init, size, ws[..i])
                        case Put(lane, value) => PutLe(WriteAll(init, size, ws[..i]), lane * size, size, value)
  {
    assert ws[i] in ws && ws[..i + 1][..i] == ws[..i];
  }

  /** Element-wise operations as write lists over a blank buffer. */
  lemma BinaryIsWrites(op: nat, a: seq<byte>, b: seq<byte>, t: FheType)
    requires IsArithmeticVector(t) && op != GATHER && op != SCATTER && op != COPY && op != GET
    requires LanesReadable(a, t) && (IsScalarOp(op) || LanesReadable(b, t))
    ensures WritesOk(BinaryWrites(op, a, b, t), t, VECTOR_BYTES)
    ensures BinaryBytes(op, a, b, t) == Some(WriteAll(Zeros(VECTOR_BYTES), ElementByteWidth(t), BinaryWrites(op, a, b, t)))
  {
    hide BinaryValue, ElementCount, ElementByteWidth, WriteAll;
    WritesFit(BinaryWrites(op, a, b, t), t);
  }

  lemma UnaryIsWrites(op: nat, a: seq<byte>, t: FheType)
    requires IsArithmeticVector(t) && LanesReadable(a, t)
    ensures WritesOk(UnaryWrites(op, a, t), t, VECTOR_BYTES)
    ensures UnaryBytes(op, a, t) == Some(WriteAll(Zeros(VECTOR_BYTES), ElementByteWidth(t), UnaryWrites(op, a, t)))
  {
    hide UnaryValue, ElementCount, ElementByteWidth, WriteAll;
    WritesFit(UnaryWrites(op, a, t), t);
  }

  lemma GatherIsWrites(a: seq<byte>, b: seq<byte>, t: FheType)
    requires IsArithmeticVector(t) && GatherReadable(a, b, t)
    ensures WritesOk(GatherWrites(a, b, t), t, VECTOR_BYTES)
    ensures BinaryBytes(GATHER, a, b, t) == Some(WriteAll(Zeros(VECTOR_BYTES), ElementByteWidth(t), GatherWrites(a, b, t)))
  {
    hide ElementCount, ElementByteWidth, WriteAll;
    WritesFit(GatherWrites(a, b, t), t);
  }

  lemma EarlierLaneReadable(data: seq<byte>, t: FheType, i: nat)
    requires IsArithmeticVector(t) && LanesReadable(data, t) && i < ElementCount(t)
    ensures ReadOk(data, i * ElementByteWidth(t))
  {
    MulLe(i, ElementCount(t) - 1, ElementByteWidth(t));
  }

  method BlankBuffer() returns (result: array<byte>)
    ensures fresh(result) && result[..] == Zeros(VECTOR_BYTES)
  {
    result := new byte[VECTOR_BYTES](_ => 0);
  }

  /** Element-wise binary operation, with a scalar right operand read once. */
  method BinaryLoop(op: nat, a: seq<byte>, b: seq<byte>, t: FheType) returns (r: seq<byte>)
    requires IsArithmeticVector(t) && op != GATHER && op != SCATTER && op != COPY && op != GET
    requires LanesReadable(a, t) && (IsScalarOp(op) || LanesReadable(b, t))
    requires WritesOk(BinaryWrites(op, a, b, t), t, VECTOR_BYTES)
    ensures Some(r) == Written(Zeros(VECTOR_BYTES), BinaryWrites(op, a, b, t), t)
  {
    hide BinaryBytes, BinaryValue, ElementCount, ElementByteWidth, WriteAll, PutLe, ReadLe, LanesReadable, Zeros, ScalarElementType;
    var size, count, elem := ElementByteWidth(t), ElementCount(t), ScalarElementType(t);
    var isScalar := IsScalarOp(op);
    var scalar := if isScalar then BytesToU128(b) else 0;
    var result := BlankBuffer();
    ghost var blank, ws := result[..], BinaryWrites(op, a, b, t);
    BlankWrites(blank, size, ws);
    for i := 0 to count
      invariant result[..] == WriteAll(blank, size, ws[..i])
    {
      EarlierLaneReadable(a, t, i);
      if !isScalar { EarlierLaneReadable(b, t, i); }
      assert ReadOk(a, i * size) && (isScalar || ReadOk(b, i * size));
      var av := ReadLe(a, i * size, size);
      var bv := if isScalar then scalar else ReadLe(b, i * size, size);
      var rv := BinaryValue(op, av, bv, elem);
      WriteNext(blank, size, ws, i);
      assert ws[i] == Put(i, rv);
      WriteLane(result, i * size, size, rv);
    }
    assert ws[..count] == ws;
    r := result[..];
  }

  lemma BlankWrites(init: seq<byte>, size: nat, ws: seq<Write>)
    requires forall w <- ws :: WriteOk(w, size, |init|)
    ensures WriteAll(init, size, ws[..0]) == init
  {
  }

  method UnaryLoop(op: nat, a: seq<byte>, t: FheType) returns (r: seq<byte>)
    requires IsArithmeticVector(t) && LanesReadable(a, t)
    requires WritesOk(UnaryWrites(op, a, t), t, VECTOR_BYTES)
    ensures Some(r) == Written(Zeros(VECTOR_BYTES), UnaryWrites(op, a, t), t)
  {
    hide UnaryBytes, UnaryValue, ElementCount, ElementByteWidth, WriteAll, PutLe, ReadLe, LanesReadable, Zeros, ScalarElementType;
    var size, count, elem := ElementByteWidth(t), ElementCount(t), ScalarElementType(t);
    var result := BlankBuffer();
    ghost var blank, ws := result[..], UnaryWrites(op, a, t);
    BlankWrites(blank, size, ws);
    for i := 0 to count
      invariant result[..] == WriteAll(blank, size, ws[..i])
    {
      EarlierLaneReadable(a, t, i);
      assert ReadOk(a, i * size);
      var rv := UnaryValue(op, ReadLe(a, i * size, size), elem);
      WriteNext(blank, size, ws, i);
      assert ws[i] == Put(i, rv);
      WriteLane(result, i * size, size, rv);
    }
    assert ws[..count] == ws;
    r := result[..];
  }

  /** result[i] = a[b[i]], out-of-range indices giving 0. */
  method GatherLoop(a: seq<byte>, b: seq<byte>, t: FheType) returns (r: seq<byte>)
    requires IsArithmeticVector(t) && GatherReadable(a, b, t)
    requires WritesOk(GatherWrites(a, b, t), t, VECTOR_BYTES)
    ensures Some(r) == Written(Zeros(VECTOR_BYTES), GatherWrites(a, b, t), t)
  {
    hide BinaryBytes, ElementCount, ElementByteWidth, WriteAll, PutLe, ReadLe, Zeros;
    var size, count := ElementByteWidth(t), ElementCount(t);
    var result := BlankBuffer();
    ghost var blank, ws := result[..], GatherWrites(a, b, t);
    BlankWrites(blank, size, ws);
    for i := 0 to count
      invariant result[..] == WriteAll(blank, size, ws[..i])
    {
      assert ReadOk(b, i * size);
      var idx := ReadLe(b, i * size, size) % U64;
      WriteNext(blank, size, ws, i);
      if idx < count {
        assert ReadOk(a, idx * size);
        assert ws[i] == Put(i, ReadLe(a, idx * size, size));
        WriteLane(result, i * size, size, ReadLe(a, idx * size, size));
      } else {
        assert ws[i] == Skip;
      }
    }
    assert ws[..count] == ws;
    r := result[..];
  }

  /** init, then result[b[i]] = values[i]; for Scatter the buffer starts at zero, for Assign at a. */
  method ScatterLoop(init: seq<byte>, values: seq<byte>, b: seq<byte>, t: FheType) returns (r: seq<byte>)
    requires IsArithmeticVector(t) && ScatterReadable(values, b, t) && WritesOk(ScatterWrites(values, b, t), t, |init|)
    ensures Some(r) == Written(init, ScatterWrites(values, b, t), t)
  {
    hide ElementCount, ElementByteWidth, WriteAll, PutLe, ReadLe;
    var size, count := ElementByteWidth(t), ElementCount(t);
    var result := new byte[|init|](k requires 0 <= k < |init| => init[k]);
    ghost var ws := ScatterWrites(values, b, t);
    assert result[..] == init;
    BlankWrites(init, size, ws);
    for i := 0 to count
      invariant result[..] == WriteAll(init, size, ws[..i])
    {
      assert ReadOk(b, i * size);
      var idx := ReadLe(b, i * size, size) % U64;
      WriteNext(init, size, ws, i);
      if idx < count {
        assert ReadOk(values, i * size);
        assert ws[i] == Put(idx, ReadLe(values, i * size, size));
        WriteLane(result, idx * size, size, ReadLe(values, i * size, size));
      } else {
        assert ws[i] == Skip;
      }
    }
    assert ws[..count] == ws;
    r := result[..];
  }

  /** result[i] = c[i] != 0 ? x[i] : y[i] */
  method SelectLoop(c: seq<byte>, x: seq<byte>, y: seq<byte>, t: FheType) returns (r: seq<byte>)
    requires IsArithmeticVector(t) && SelectReadable(c, x, y, t) && WritesOk(SelectWrites(c, x, y, t), t, VECTOR_BYTES)
    ensures Some(r) == Written(Zeros(VECTOR_BYTES), SelectWrites(c, x, y, t), t)
  {
    hide ElementCount, ElementByteWidth, WriteAll, PutLe, ReadLe, Zeros;
    var size, count := ElementByteWidth(t), ElementCount(t);
    var result := BlankBuffer();
    ghost var blank, ws := result[..], SelectWrites(c, x, y, t);
    BlankWrites(blank, size, ws);
    for i := 0 to count
      invariant result[..] == WriteAll(blank, size, ws[..i])
    {
      assert ReadOk(c, i * size);
      var chosen := if ReadLe(c, i * size, size) != 0 then x else y;
      assert ReadOk(chosen, i * size);
      WriteNext(blank, size, ws, i);
      assert ws[i] == Put(i, ReadLe(chosen, i * size, size));
      WriteLane(result, i * size, size, ReadLe(chosen, i * size, size));
    }
    assert ws[..count] == ws;
    r := result[..];
  }

  /** a, then result[b[i]] = c[0]. */
  method BroadcastLoop(a: seq<byte>, b: seq<byte>, c: seq<byte>, t: FheType) returns (r: seq<byte>)
    requires IsArithmeticVector(t) && LanesReadable(b, t) && WritesOk(BroadcastWrites(c, b, t), t, |a|)
    ensures Some(r) == Written(a, BroadcastWrites(c, b, t), t)
  {
    hide ElementCount, ElementByteWidth, WriteAll, PutLe, ReadLe, LanesReadable, ToLe, FromLe, TernaryBytes;
    var size, count := ElementByteWidth(t), ElementCount(t);
    var scalar := ReadLe(c, 0, size);
    var result := new byte[|a|](k requires 0 <= k < |a| => a[k]);
    ghost var ws := BroadcastWrites(c, b, t);
    assert result[..] == a;
    BlankWrites(a, size, ws);
    for i := 0 to count
      invariant result[..] == WriteAll(a, size, ws[..i])
    {
      EarlierLaneReadable(b, t, i);
      assert ReadOk(b, i * size);
      var idx := ReadLe(b, i * size, size) % U64;
      WriteNext(a, size, ws, i);
      if idx < count {
        assert ws[i] == Put(idx, scalar);
        WriteLane(result, idx * size, size, scalar);
      } else {
        assert ws[i] == Skip;
      }
    }
    assert ws[..count] == ws;
    r := result[..];
  }

  /** Bit vectors are handled byte by byte. */
  method BitLoop(op: nat, a: seq<byte>, b: seq<byte>, width: nat) returns (r: seq<byte>)
    ensures r == BitBinary(op, a, b, width)
  {
    hide BinaryValue;
    var isScalar := IsScalarOp(op);
    var scalar := if isScalar then BytesToU128(b) else 0;
    var result := new byte[width](_ => 0);
    for i := 0 to width
      invariant result[..i] == BitBinary(op, a, b, width)[..i]
    {
      var bv := if isScalar then scalar else ByteAt(b, i);
      result[i] := BinaryValue(op, ByteAt(a, i), bv, E_UINT8) % 256;
    }
    r := result[..];
  }

  // ---- what the loops compute, lane by lane ----

  /** A full-width arithmetic vector whose lanes fit a u128. */
  predicate FullVector(s: seq<byte>, t: FheType) {
    E_VECTOR_U8 <= t <= E_VECTOR_U128 && |s| == VECTOR_BYTES
  }

  predicate Structural(op: nat) {
    op == GATHER || op == SCATTER || op == COPY || op == GET
  }

  /** Lanes are as wide as their element type. */
  lemma LaneWidth(t: FheType)
    requires E_VECTOR_U8 <= t <= E_VECTOR_U128
    ensures 0 < ElementByteWidth(t) <= 16 && 8 * ElementByteWidth(t) == Width(ScalarElementType(t))
    ensures ElementCount(t) * ElementByteWidth(t) == VECTOR_BYTES && ElementCount(t) > 0
  {
    assert t == 32 || t == 33 || t == 34 || t == 35 || t == 36;
  }

  lemma FullVectorReadable(s: seq<byte>, t: FheType, i: nat)
    requires FullVector(s, t) && i < ElementCount(t)
    ensures ReadOk(s, i * ElementByteWidth(t)) && LanesReadable(s, t)
    ensures InRange(Lane(s, ElementByteWidth(t), i), ScalarElementType(t))
  {
    LaneWidth(t);
    LaneFits(t, i);
    LaneFits(t, ElementCount(t) - 1);
    ReadWithin(s, i * ElementByteWidth(t), ElementByteWidth(t));
  }

  /** The element-wise loop is the scalar operation applied to every lane. */
  lemma BinaryIsLanewise(op: nat, a: seq<byte>, b: seq<byte>, t: FheType, i: nat)
    requires FullVector(a, t) && !Structural(op) && i < ElementCount(t)
    requires if IsScalarOp(op) then InRange(BytesToU128(b), ScalarElementType(t)) else FullVector(b, t)
    ensures BinaryBytes(op, a, b, t).Some? && FullVector(BinaryBytes(op, a, b, t).value, t)
    ensures Lane(BinaryBytes(op, a, b, t).value, ElementByteWidth(t), i)
         == BinaryValue(op, Lane(a, ElementByteWidth(t), i),
                        if IsScalarOp(op) then BytesToU128(b) else Lane(b, ElementByteWidth(t), i), ScalarElementType(t))
  {
    hide BinaryValue, ReadLe, WriteAll, ElementByteWidth, ElementCount, BinaryBytes, InRange;
    var size, elem := ElementByteWidth(t), ScalarElementType(t);
    FullVectorReadable(a, t, i);
    if !IsScalarOp(op) { FullVectorReadable(b, t, i); }
    BinaryIsWrites(op, a, b, t);
    var ws := BinaryWrites(op, a, b, t);
    var bv := if IsScalarOp(op) then BytesToU128(b) else Lane(b, size, i);
    WrittenOnce(ws, t, i, BinaryValue(op, Lane(a, size, i), bv, elem), Zeros(VECTOR_BYTES));
    BinaryClosed(op, Lane(a, size, i), bv, elem);
    LaneMod(t, BinaryValue(op, Lane(a, size, i), bv, elem));
  }

  lemma LaneMod(t: FheType, v: nat)
    requires E_VECTOR_U8 <= t <= E_VECTOR_U128 && InRange(v, ScalarElementType(t))
    ensures v % Pow2(8 * ElementByteWidth(t)) == v
  {
    LaneWidth(t);
    SmallMod(v, Pow2(8 * ElementByteWidth(t)));
  }

  /** A write list with exactly lane i's write at position i. */
  lemma WrittenOnce(ws: seq<Write>, t: FheType, i: nat, v: nat, init: seq<byte>)
    requires E_VECTOR_U8 <= t <= E_VECTOR_U128 && |init| == VECTOR_BYTES && WritesOk(ws, t, VECTOR_BYTES)
    requires |ws| == ElementCount(t) && i < |ws| && (forall k | 0 <= k < |ws| :: ws[k].Put? && ws[k].lane == k)
    requires ws[i].value == v
    ensures Lane(WriteAll(init, ElementByteWidth(t), ws), ElementByteWidth(t), i) == v % Pow2(8 * ElementByteWidth(t))
  {
    LaneWidth(t);
    LaneFits(t, i);
    LastPutIs(ws, i, i);
    LaneAfterWrites(init, ElementByteWidth(t), ws, i);
  }

  lemma UnaryIsLanewise(op: nat, a: seq<byte>, t: FheType, i: nat)
    requires FullVector(a, t) && i < ElementCount(t)
    ensures UnaryBytes(op, a, t).Some? && FullVector(UnaryBytes(op, a, t).value, t)
    ensures Lane(UnaryBytes(op, a, t).value, ElementByteWidth(t), i)
         == UnaryValue(op, Lane(a, ElementByteWidth(t), i), ScalarElementType(t))
  {
    hide UnaryValue, ReadLe, WriteAll, ElementByteWidth, ElementCount, UnaryBytes, InRange;
    var size, elem := ElementByteWidth(t), ScalarElementType(t);
    FullVectorReadable(a, t, i);
    UnaryIsWrites(op, a, t);
    WrittenOnce(UnaryWrites(op, a, t), t, i, UnaryValue(op, Lane(a, size, i), elem), Zeros(VECTOR_BYTES));
    UnaryClosed(op, Lane(a, size, i), elem);
    LaneMod(t, UnaryValue(op, Lane(a, size, i), elem));
  }

  /** A lane reads as what is there of its first sixteen bytes. */
  lemma LaneReads(data: seq<byte>, size: nat, i: nat)
    requires i * size <= |data|
    ensures Lane(data, size, i) == FromLe(data[i * size..Min(i * size + Min(size, 16), |data|)])
  {
    hide FromLe, Zeros;
    var start, end := i * size, Min(i * size + Min(size, 16), |data|);
    if end > start {
      FromLePadded(data[start..end], 16 - (end - start));
    } else {
      EmptyReads(data[start..end]);
    }
  }

  lemma EmptyReads(s: seq<byte>)
    requires s == []
    ensures FromLe(s) == 0
  {
  }

  /** Operands may be short by up to one lane; a shorter one makes an element-wise operation panic. */
  lemma ElementwisePanicsIff(op: nat, a: seq<byte>, b: seq<byte>, t: FheType)
    requires IsArithmeticVector(t) && !Structural(op)
    ensures BinaryBytes(op, a, b, t).None?
       <==> |a| + ElementByteWidth(t) < VECTOR_BYTES || (!IsScalarOp(op) && |b| + ElementByteWidth(t) < VECTOR_BYTES)
    ensures UnaryBytes(op, a, t).None? <==> |a| + ElementByteWidth(t) < VECTOR_BYTES
  {
    hide BinaryValue, UnaryValue, ElementByteWidth, ElementCount, WriteAll;
    LastLane(t);
    WritesFit(BinaryWrites(op, a, b, t), t);
    WritesFit(UnaryWrites(op, a, t), t);
  }

  lemma LastLane(t: FheType)
    requires IsArithmeticVector(t)
    ensures (ElementCount(t) - 1) * ElementByteWidth(t) == VECTOR_BYTES - ElementByteWidth(t)
  {
    LanesTile(t);
  }

  // ---- gather, scatter, assign ----

  /** Lane i is the last whose index names lane j. */
  predicate LastNaming(b: seq<byte>, t: FheType, i: nat, j: nat)
    requires IsArithmeticVector(t)
  {
    var size, count := ElementByteWidth(t), ElementCount(t);
    i < count && Index(b, size, i) == j && forall k: nat | i < k < count :: Index(b, size, k) != j
  }

  predicate Unnamed(b: seq<byte>, t: FheType, j: nat)
    requires IsArithmeticVector(t)
  {
    forall k: nat | k < ElementCount(t) :: Index(b, ElementByteWidth(t), k) != j
  }

  /** Scatter over a buffer: the last index naming a lane decides it, and an unnamed lane keeps its value. */
  lemma ScatterOver(init: seq<byte>, values: seq<byte>, b: seq<byte>, t: FheType, i: nat, j: nat)
    requires FullVector(init, t) && FullVector(values, t) && FullVector(b, t) && j < ElementCount(t)
    ensures var r := Written(init, ScatterWrites(values, b, t), t);
            && r.Some? && FullVector(r.value, t)
            && (LastNaming(b, t, i, j) ==>
                  Lane(r.value, ElementByteWidth(t), j) == Lane(values, ElementByteWidth(t), i))
            && (Unnamed(b, t, j) ==>
                  Lane(r.value, ElementByteWidth(t), j) == Lane(init, ElementByteWidth(t), j))
  {
    hide ReadLe, WriteAll, ElementByteWidth, ElementCount, InRange;
    var size, count := ElementByteWidth(t), ElementCount(t);
    var ws := ScatterWrites(values, b, t);
    LaneWidth(t);
    WritesFit(ws, t);
    LaneFits(t, j);
    LaneAfterWrites(init, size, ws, j);
    if LastNaming(b, t, i, j) {
      forall k | i < k < |ws|
        ensures ws[k].Skip? || ws[k].lane != j
      {
        var later: nat := k;
        assert Index(b, size, later) != j;
      }
      LastPutIs(ws, j, i);
      FullVectorReadable(values, t, i);
      LaneMod(t, Lane(values, size, i));
    }
    if Unnamed(b, t, j) {
      NeverPut(ws, j);
    }
  }

  lemma AllReadable(s: seq<byte>, t: FheType)
    requires FullVector(s, t)
    ensures forall i: nat | i < ElementCount(t) :: ReadOk(s, i * ElementByteWidth(t))
    ensures LanesReadable(s, t)
  {
    hide ReadLe, FromLe, Pow2, InRange, ElementByteWidth, ElementCount;
    LaneWidth(t);
    FullVectorReadable(s, t, 0);
    forall i: nat | i < ElementCount(t)
      ensures ReadOk(s, i * ElementByteWidth(t))
    {
      FullVectorReadable(s, t, i);
    }
  }

  /** Assign is last-write-wins over its base vector, with every unnamed lane framed. */
  lemma AssignLastWins(a: seq<byte>, b: seq<byte>, c: seq<byte>, t: FheType, i: nat, j: nat)
    requires FullVector(a, t) && FullVector(b, t) && FullVector(c, t) && j < ElementCount(t)
    ensures var r := TernaryBytes(ASSIGN, a, b, c, t);
            && r.Some? && FullVector(r.value, t)
            && (LastNaming(b, t, i, j) ==> Lane(r.value, ElementByteWidth(t), j) == Lane(c, ElementByteWidth(t), i))
            && (Unnamed(b, t, j) ==> Lane(r.value, ElementByteWidth(t), j) == Lane(a, ElementByteWidth(t), j))
  {
    hide ReadLe, Written, ScatterWrites, ElementByteWidth, ElementCount;
    AllReadable(b, t);
    AllReadable(c, t);
    ScatterOver(a, c, b, t, i, j);
  }

  /** Scatter is last-write-wins over zeros. */
  lemma ScatterLastWins(a: seq<byte>, b: seq<byte>, t: FheType, i: nat, j: nat)
    requires FullVector(a, t) && FullVector(b, t) && j < ElementCount(t)
    ensures var r := BinaryBytes(SCATTER, a, b, t);
            && r.Some? && FullVector(r.value, t)
            && (LastNaming(b, t, i, j) ==> Lane(r.value, ElementByteWidth(t), j) == Lane(a, ElementByteWidth(t), i))
            && (Unnamed(b, t, j) ==> Lane(r.value, ElementByteWidth(t), j) == 0)
  {
    hide ReadLe, Written, ScatterWrites, ElementByteWidth, ElementCount;
    AllReadable(a, t);
    AllReadable(b, t);
    ScatterOver(Zeros(VECTOR_BYTES), a, b, t, i, j);
    ZeroLane(t, j);
  }

  lemma ZeroLane(t: FheType, j: nat)
    requires E_VECTOR_U8 <= t <= E_VECTOR_U128 && j < ElementCount(t)
    ensures Lane(Zeros(VECTOR_BYTES), ElementByteWidth(t), j) == 0
  {
    var size := ElementByteWidth(t);
    LaneWidth(t);
    LaneFits(t, j);
    ReadWithin(Zeros(VECTOR_BYTES), j * size, size);
    assert Zeros(VECTOR_BYTES)[j * size..j * size + size] == Zeros(size);
    FromLeZeros(size);
  }

  /** Gather looks each lane up by index; an index out of range gives 0. */
  lemma GatherLooksUp(a: seq<byte>, b: seq<byte>, t: FheType, i: nat)
    requires FullVector(a, t) && FullVector(b, t) && i < ElementCount(t)
    ensures var r := BinaryBytes(GATHER, a, b, t);
            var size := ElementByteWidth(t);
            && r.Some? && FullVector(r.value, t)
            && Lane(r.value, size, i) == if Index(b, size, i) < ElementCount(t) then Lane(a, size, Index(b, size, i)) else 0
  {
    hide ReadLe, WriteAll, ElementByteWidth, ElementCount, BinaryBytes, InRange;
    var size, count := ElementByteWidth(t), ElementCount(t);
    var ws := GatherWrites(a, b, t);
    AllReadable(a, t);
    AllReadable(b, t);
    GatherIsWrites(a, b, t);
    LaneWidth(t);
    LaneFits(t, i);
    LaneAfterWrites(Zeros(VECTOR_BYTES), size, ws, i);
    if Index(b, size, i) < count {
      LastPutIs(ws, i, i);
      FullVectorReadable(a, t, Index(b, size, i));
      LaneMod(t, Lane(a, size, Index(b, size, i)));
    } else {
      NeverPut(ws, i);
      ZeroLane(t, i);
    }
  }

  /** An index counts modulo 2^64: up to 64-bit lanes it is the lane itself, and only a 128-bit lane can
      name a lane it is not. */
  lemma IndexCounts(b: seq<byte>, t: FheType, i: nat)
    requires FullVector(b, t) && i < ElementCount(t)
    ensures var lane := Lane(b, ElementByteWidth(t), i);
            && (t < E_VECTOR_U128 || lane < 0x1_0000_0000_0000_0000 ==> Index(b, ElementByteWidth(t), i) == lane)
            && (0x1_0000_0000_0000_0000 <= lane < 0x2_0000_0000_0000_0000 ==>
                  Index(b, ElementByteWidth(t), i) == lane - 0x1_0000_0000_0000_0000)
  {
    hide ReadLe, ElementByteWidth, ElementCount, Pow2;
    var lane := Lane(b, ElementByteWidth(t), i);
    FullVectorReadable(b, t, i);
    NarrowLane(lane, t);
    if lane < U64 {
      SmallMod(lane, U64);
    } else if lane < 2 * U64 {
      DivModUnique(lane, U64, 1, lane - U64);
    }
  }

  lemma NarrowLane(lane: nat, t: FheType)
    requires E_VECTOR_U8 <= t < E_VECTOR_U128 ==> InRange(lane, ScalarElementType(t))
    ensures E_VECTOR_U8 <= t < E_VECTOR_U128 ==> lane < U64
  {
    hide Pow2;
    if E_VECTOR_U8 <= t < E_VECTOR_U128 {
      Pow2Literals();
      Pow2Monotone(Width(ScalarElementType(t)), 64);
    }
  }

  /** Get puts the lane its first index names into lane 0, and 0 everywhere else. */
  lemma GetPicks(a: seq<byte>, b: seq<byte>, t: FheType, j: nat)
    requires FullVector(a, t) && FullVector(b, t) && j < ElementCount(t)
    ensures var r := BinaryBytes(GET, a, b, t);
            var size := ElementByteWidth(t);
            && r.Some? && FullVector(r.value, t)
            && Lane(r.value, size, j)
            == if j == 0 && Index(b, size, 0) < ElementCount(t) then Lane(a, size, Index(b, size, 0)) else 0
  {
    hide ReadLe, WriteAll, ElementByteWidth, ElementCount, InRange;
    var size, count := ElementByteWidth(t), ElementCount(t);
    var index, ws := Index(b, size, 0), GetWrites(a, b, t);
    LaneWidth(t);
    WritesFit(ws, t);
    if index < count {
      FullVectorReadable(a, t, index);
      LaneMod(t, Lane(a, size, index));
    }
    LaneFits(t, j);
    LaneAfterWrites(Zeros(VECTOR_BYTES), size, ws, j);
    if j == 0 && index < count {
      LastPutIs(ws, 0, 0);
    } else {
      NeverPut(ws, j);
      ZeroLane(t, j);
    }
  }

  /** Copy is its second operand, byte for byte. */
  lemma CopyIsSecond(a: seq<byte>, b: seq<byte>, t: FheType)
    requires IsArithmeticVector(t)
    ensures BinaryBytes(COPY, a, b, t) == Some(b)
  {
  }

  /** Indices in range and pairwise different. */
  predicate Injective(b: seq<byte>, t: FheType)
    requires IsArithmeticVector(t)
  {
    var size, count := ElementByteWidth(t), ElementCount(t);
    && (forall i: nat | i < count :: Index(b, size, i) < count)
    && (forall i: nat, k: nat | i < k < count :: Index(b, size, i) != Index(b, size, k))
  }

  /** Some index names lane j. */
  predicate Named(b: seq<byte>, t: FheType, j: nat)
    requires IsArithmeticVector(t)
  {
    !Unnamed(b, t, j)
  }

  predicate Permutation(b: seq<byte>, t: FheType)
    requires IsArithmeticVector(t)
  {
    Injective(b, t) && forall j: nat | j < ElementCount(t) :: Named(b, t, j)
  }

  lemma OnlyNaming(b: seq<byte>, t: FheType, i: nat)
    requires IsArithmeticVector(t) && Injective(b, t) && i < ElementCount(t)
    ensures LastNaming(b, t, i, Index(b, ElementByteWidth(t), i))
  {
  }

  /** Vectors with the same lanes are the same bytes. */
  lemma SameVector(s: seq<byte>, r: seq<byte>, t: FheType)
    requires FullVector(s, t) && FullVector(r, t)
    requires forall j: nat | j < ElementCount(t) :: Lane(s, ElementByteWidth(t), j) == Lane(r, ElementByteWidth(t), j)
    ensures s == r
  {
    LaneWidth(t);
    SameLanes(s, r, ElementByteWidth(t), ElementCount(t));
  }

  /** Gathering what was assigned through the same injective indices gives back the assigned values. */
  lemma GatherOfAssign(a: seq<byte>, b: seq<byte>, c: seq<byte>, t: FheType)
    requires FullVector(a, t) && FullVector(b, t) && FullVector(c, t) && Injective(b, t)
    ensures TernaryBytes(ASSIGN, a, b, c, t).Some?
    ensures BinaryBytes(GATHER, TernaryBytes(ASSIGN, a, b, c, t).value, b, t) == Some(c)
  {
    hide ReadLe, ElementByteWidth, ElementCount, BinaryBytes, TernaryBytes;
    LaneWidth(t);
    AssignLastWins(a, b, c, t, 0, 0);
    var r := TernaryBytes(ASSIGN, a, b, c, t).value;
    GatherLooksUp(r, b, t, 0);
    var back := BinaryBytes(GATHER, r, b, t).value;
    forall i: nat | i < ElementCount(t)
      ensures Lane(back, ElementByteWidth(t), i) == Lane(c, ElementByteWidth(t), i)
    {
      GatherLooksUp(r, b, t, i);
      OnlyNaming(b, t, i);
      AssignLastWins(a, b, c, t, i, Index(b, ElementByteWidth(t), i));
    }
    SameVector(back, c, t);
  }

  /** Gather undoes scatter for injective indices in range. */
  lemma GatherOfScatter(a: seq<byte>, p: seq<byte>, t: FheType)
    requires FullVector(a, t) && FullVector(p, t) && Injective(p, t)
    ensures BinaryBytes(SCATTER, a, p, t).Some?
    ensures BinaryBytes(GATHER, BinaryBytes(SCATTER, a, p, t).value, p, t) == Some(a)
  {
    hide ReadLe, ElementByteWidth, ElementCount, BinaryBytes;
    LaneWidth(t);
    ScatterLastWins(a, p, t, 0, 0);
    var r := BinaryBytes(SCATTER, a, p, t).value;
    GatherLooksUp(r, p, t, 0);
    var back := BinaryBytes(GATHER, r, p, t).value;
    forall i: nat | i < ElementCount(t)
      ensures Lane(back, ElementByteWidth(t), i) == Lane(a, ElementByteWidth(t), i)
    {
      GatherLooksUp(r, p, t, i);
      OnlyNaming(p, t, i);
      ScatterLastWins(a, p, t, i, Index(p, ElementByteWidth(t), i));
    }
    SameVector(back, a, t);
  }

  /** Scatter undoes gather for a permutation. */
  lemma ScatterOfGather(a: seq<byte>, p: seq<byte>, t: FheType)
    requires FullVector(a, t) && FullVector(p, t) && Permutation(p, t)
    ensures BinaryBytes(GATHER, a, p, t).Some?
    ensures BinaryBytes(SCATTER, BinaryBytes(GATHER, a, p, t).value, p, t) == Some(a)
  {
    hide ReadLe, ElementByteWidth, ElementCount, BinaryBytes;
    LaneWidth(t);
    GatherLooksUp(a, p, t, 0);
    var r := BinaryBytes(GATHER, a, p, t).value;
    ScatterLastWins(r, p, t, 0, 0);
    var back := BinaryBytes(SCATTER, r, p, t).value;
    forall j: nat | j < ElementCount(t)
      ensures Lane(back, ElementByteWidth(t), j) == Lane(a, ElementByteWidth(t), j)
    {
      assert Named(p, t, j);
      var i: nat :| i < ElementCount(t) && Index(p, ElementByteWidth(t), i) == j;
      OnlyNaming(p, t, i);
      ScatterLastWins(r, p, t, i, j);
      GatherLooksUp(a, p, t, i);
    }
    SameVector(back, a, t);
  }

  // ---- broadcast assignment and per-lane choice ----

  /** When every write to a lane writes v, the last one did. */
  lemma {:induction false} OnlyPut(ws: seq<Write>, j: nat, v: nat)
    requires forall k | 0 <= k < |ws| :: ws[k].Put? && ws[k].lane == j ==> ws[k].value == v
    ensures LastPut(ws, j).Some? ==> LastPut(ws, j) == Some(v)
    ensures LastPut(ws, j).None? ==> forall k | 0 <= k < |ws| :: ws[k].Skip? || ws[k].lane != j
  {
    if ws != [] {
      OnlyPut(ws[..|ws| - 1], j, v);
    }
  }

  lemma ReadBound(data: seq<byte>, size: nat)
    requires 0 < size <= 16
    ensures ReadLe(data, 0, size) < Pow2(8 * size)
  {
    hide FromLe, Zeros, Pow2;
    var end := Min(size, |data|);
    if end > 0 {
      FromLePadded(data[0..end], 16 - end);
      FromLeBound(data[0..end]);
      Pow2Monotone(8 * end, 8 * size);
    }
  }

  /** Assigning scalars writes the first lane of the value to every lane some index names, and frames
      every other. */
  lemma AssignScalarsBroadcasts(a: seq<byte>, b: seq<byte>, c: seq<byte>, t: FheType, j: nat)
    requires FullVector(a, t) && FullVector(b, t) && j < ElementCount(t)
    ensures var r, size := TernaryBytes(ASSIGN_SCALARS, a, b, c, t), ElementByteWidth(t);
            && r.Some? && FullVector(r.value, t)
            && Lane(r.value, size, j) == if Named(b, t, j) then ReadLe(c, 0, size) else Lane(a, size, j)
  {
    hide ReadLe, WriteAll, ElementByteWidth, ElementCount, InRange, Pow2;
    var size, value := ElementByteWidth(t), ReadLe(c, 0, ElementByteWidth(t));
    var ws := BroadcastWrites(c, b, t);
    AllReadable(b, t);
    LaneWidth(t);
    WritesFit(ws, t);
    LaneFits(t, j);
    LaneAfterWrites(a, size, ws, j);
    OnlyPut(ws, j, value);
    ReadBound(c, size);
    SmallMod(value, Pow2(8 * size));
    if Named(b, t, j) {
      var k: nat :| k < ElementCount(t) && Index(b, size, k) == j;
      assert ws[k] == Put(j, value);
    } else {
      forall k | 0 <= k < |ws|
        ensures ws[k].Skip? || ws[k].lane != j
      {
        var i: nat := k;
        assert Index(b, size, i) != j;
      }
      NeverPut(ws, j);
    }
  }

  /** Scalar select chooses lane by lane. */
  lemma SelectChoosesLanes(c: seq<byte>, x: seq<byte>, y: seq<byte>, t: FheType, i: nat)
    requires FullVector(c, t) && FullVector(x, t) && FullVector(y, t) && i < ElementCount(t)
    ensures var r, size := TernaryBytes(SELECT_SCALAR, c, x, y, t), ElementByteWidth(t);
            && r.Some? && FullVector(r.value, t)
            && Lane(r.value, size, i) == if Lane(c, size, i) != 0 then Lane(x, size, i) else Lane(y, size, i)
  {
    hide ReadLe, WriteAll, ElementByteWidth, ElementCount, InRange;
    var size, ws := ElementByteWidth(t), SelectWrites(c, x, y, t);
    AllReadable(c, t);
    AllReadable(x, t);
    AllReadable(y, t);
    WritesFit(ws, t);
    var value := if Lane(c, size, i) != 0 then Lane(x, size, i) else Lane(y, size, i);
    WrittenOnce(ws, t, i, value, Zeros(VECTOR_BYTES));
    FullVectorReadable(x, t, i);
    FullVectorReadable(y, t, i);
    LaneMod(t, value);
  }
}
