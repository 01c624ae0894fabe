/** Type and operation discriminants of the FHE instruction set, and the size tables.
    Both enums are `repr(u8)`; what travels in a graph node is the discriminant, and
    operations are transmuted back from it, so the model works on discriminants. */
module FheTypes {

  datatype Option<+T> = None | Some(value: T)

  type FheType = t: nat | t <= 44

  const E_BOOL: FheType := 0
  const E_UINT8: FheType := 1
  const E_UINT16: FheType := 2
  const E_UINT32: FheType := 3
  const E_UINT64: FheType := 4
  const E_UINT128: FheType := 5
  const E_VECTOR_U8: FheType := 32
  const E_VECTOR_U32: FheType := 34
  const E_VECTOR_U128: FheType := 36

  function FromU8(val: nat): Option<FheType> {
    if val <= 44 then Some(val) else None
  }

  /** Scalars of at most 128 bits, on which the arithmetic is exact. */
  predicate IsSmallScalar(t: FheType) {
    t <= 5
  }

  predicate IsBitVector(t: FheType) {
    16 <= t <= 31
  }

  predicate IsArithmeticVector(t: FheType) {
    32 <= t
  }

  /** Plaintext bytes of a value of the type. */
  function ByteWidth(t: FheType): (w: nat)
    ensures w > 0
  {
    if t <= 5 then [1, 1, 2, 4, 8, 16][t]
    else if t <= 15 then [32, 32, 64, 128, 256, 512, 1024, 2048, 4096, 8192][t - 6]
    else if t <= 31 then [1, 1, 1, 2, 4, 8, 16, 32, 64, 128, 256, 512, 1024, 2048, 4096, 8192][t - 16]
    else 8192
  }

  /** Vector type to element type; a scalar is its own element type. */
  function ScalarElementType(t: FheType): (e: FheType)
    ensures e <= 15
  {
    if t >= 32 then [1, 2, 3, 4, 5, 6, 8, 9, 10, 11, 12, 13, 14][t - 32]
    else if IsBitVector(t) then E_BOOL
    else t
  }

  function ElementByteWidth(t: FheType): (w: nat)
    ensures w > 0
  {
    ByteWidth(ScalarElementType(t))
  }

  const VECTOR_BYTES := 8192

  /** Lanes of an arithmetic vector. */
  function ElementCount(t: FheType): nat
    requires IsArithmeticVector(t)
  {
    VECTOR_BYTES / ElementByteWidth(t)
  }

  /** Lanes tile an arithmetic vector exactly. */
  lemma LanesTile(t: FheType)
    requires IsArithmeticVector(t)
    ensures ElementCount(t) * ElementByteWidth(t) == VECTOR_BYTES
    ensures t <= E_VECTOR_U128 ==> ElementByteWidth(t) <= 16 && IsSmallScalar(ScalarElementType(t))
  {
    assert t == 32 || t == 33 || t == 34 || t == 35 || t == 36 || t == 37 || t == 38
        || t == 39 || t == 40 || t == 41 || t == 42 || t == 43 || t == 44;
  }

  /** From EUint8 to EUint128 every scalar is twice as wide as the one before. */
  lemma ScalarsDouble(t: FheType)
    ensures ByteWidth(E_BOOL) == ByteWidth(E_UINT8) == 1
    ensures E_UINT8 <= t < E_UINT128 ==> ByteWidth(t + 1) == 2 * ByteWidth(t)
    ensures 7 <= t < 15 ==> ByteWidth(t + 1) == 2 * ByteWidth(t)
    ensures ByteWidth(E_UINT128) == 16 && ByteWidth(6) == ByteWidth(7) == 32
  {
    var scalars := [1, 1, 2, 4, 8, 16, 32, 32, 64, 128, 256, 512, 1024, 2048, 4096, 8192];
    assert t <= 15 ==> ByteWidth(t) == scalars[t];
    assert t < 15 ==> ByteWidth(t + 1) == scalars[t + 1];
  }

  /** Bit vectors of 2 to 8 bits take one byte, and every longer one is twice as long as the one before.
      Arithmetic vectors are all of one length. */
  lemma VectorsDouble(t: FheType)
    ensures 16 <= t <= 18 ==> ByteWidth(t) == 1
    ensures 18 <= t < 31 ==> ByteWidth(t + 1) == 2 * ByteWidth(t)
    ensures IsArithmeticVector(t) ==> ByteWidth(t) == 8192
  {
    var vectors := [1, 1, 1, 2, 4, 8, 16, 32, 64, 128, 256, 512, 1024, 2048, 4096, 8192];
    assert 16 <= t <= 31 ==> ByteWidth(t) == vectors[t - 16];
    assert 16 <= t < 31 ==> ByteWidth(t + 1) == vectors[t - 15];
  }

  /** Vector types list their elements in the order of the scalar types, leaving out the bool and the
      address. */
  lemma ElementsInOrder(t: FheType)
    ensures t <= 15 ==> ScalarElementType(t) == t
    ensures IsBitVector(t) ==> ScalarElementType(t) == E_BOOL
    ensures 32 <= t <= 37 ==> ScalarElementType(t) == t - 31
    ensures 38 <= t ==> ScalarElementType(t) == t - 30
  {
    var elements := [1, 2, 3, 4, 5, 6, 8, 9, 10, 11, 12, 13, 14];
    assert t >= 32 ==> ScalarElementType(t) == elements[t - 32];
  }

  // ---- operation discriminants ----

  const ADD := 0
  const MULTIPLY := 1
  const NEGATE := 2
  const SUBTRACT := 3
  const DIVIDE := 4
  const MODULO := 5
  const MIN := 6
  const MAX := 7
  const BLEND := 8
  const ADD_SCALAR := 9
  const MULTIPLY_SCALAR := 10
  const SUBTRACT_SCALAR := 11
  const DIVIDE_SCALAR := 12
  const MODULO_SCALAR := 13
  const MIN_SCALAR := 14
  const MAX_SCALAR := 15
  const XOR := 20
  const AND := 21
  const NOT := 22
  const OR := 23
  const NOR := 24
  const NAND := 25
  const SHIFT_LEFT := 26
  const SHIFT_RIGHT := 27
  const ROTATE_LEFT := 28
  const ROTATE_RIGHT := 29
  const AND_SCALAR := 30
  const OR_SCALAR := 31
  const XOR_SCALAR := 32
  const IS_LESS_THAN := 40
  const IS_EQUAL := 41
  const IS_NOT_EQUAL := 42
  const IS_GREATER_THAN := 43
  const IS_GREATER_OR_EQUAL := 44
  const IS_LESS_OR_EQUAL := 45
  const IS_LESS_THAN_SCALAR := 46
  const IS_EQUAL_SCALAR := 47
  const IS_NOT_EQUAL_SCALAR := 48
  const IS_GREATER_THAN_SCALAR := 49
  const IS_GREATER_OR_EQUAL_SCALAR := 50
  const IS_LESS_OR_EQUAL_SCALAR := 51
  const SELECT := 60
  const SELECT_SCALAR := 61
  const RANDOM := 70
  const RANDOM_RANGE := 71
  const EXTRACT_LSBS := 80
  const PACK_INTO := 81
  const INTO := 82
  const TO_BOOLEAN := 83
  const EXTRACT_MSBS := 84
  const BOOTSTRAP := 85
  const THIN_BOOTSTRAP := 86
  const GATHER := 90
  const SCATTER := 91
  const ASSIGN := 92
  const ASSIGN_SCALARS := 93
  const COPY := 94
  const GET := 95
  const KEY_FROM := 100
  const KEY_RE_ENCRYPT := 104
}
