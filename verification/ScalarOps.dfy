/** Plaintext semantics of the scalar operations of the mock engine on u128 values. */
module ScalarOps {
  import opened Arith
  import opened Bits
  import opened LittleEndian
  import opened FheTypes

  const U32: nat := 0x1_0000_0000
  const U64: nat := 0x1_0000_0000_0000_0000

  function TypeBitMask(t: FheType): nat {
    if t == E_BOOL then 1
    else if t == E_UINT8 then 0xFF
    else if t == E_UINT16 then 0xFFFF
    else if t == E_UINT32 then 0xFFFF_FFFF
    else if t == E_UINT64 then 0xFFFF_FFFF_FFFF_FFFF
    else U128 - 1
  }

  /** Shift and rotate width: the byte width in bits, clamped to 128. */
  function TypeBitCount(t: FheType): nat {
    var bits := ByteWidth(t) * 8;
    if bits > 128 then 128 else bits
  }

  function WrappingShl(a: nat, s: nat): nat {
    a * Pow2(s % 128) % U128
  }

  function WrappingShr(a: nat, s: nat): nat {
    Quotient(a, Pow2(s % 128))
  }

  /** Bitwise complement of a u128. */
  function Complement(a: nat): (r: nat) {
    if a < U128 then U128 - 1 - a else 0
  }

  function Flag(b: bool): nat {
    if b then 1 else 0
  }

  function Rotate(value: nat, amount: nat, t: FheType, left: bool): nat {
    var bits := TypeBitCount(t);
    if bits == 0 then value
    else
      var shift := amount % U32 % bits;
      if shift == 0 then value
      else if left then Or(WrappingShl(value, shift), WrappingShr(value, bits - shift))
      else Or(WrappingShr(value, shift), WrappingShl(value, bits - shift))
  }

  /** The fixed mixing step behind the mock's random operations. */
  function Mix(a: nat): nat {
    (a * 6364136223846793005 % U128 + 1442695040888963407) % U128
  }

  function BinaryValue(op: nat, a: nat, b: nat, t: FheType): nat {
    var mask := TypeBitMask(t);
    if op == ADD || op == ADD_SCALAR then And((a + b) % U128, mask)
    else if op == MULTIPLY || op == MULTIPLY_SCALAR then And(a * b % U128, mask)
    else if op == SUBTRACT || op == SUBTRACT_SCALAR then And((a - b) % U128, mask)
    else if op == DIVIDE || op == DIVIDE_SCALAR then if b == 0 then 0 else And(Quotient(a, b), mask)
    else if op == MODULO || op == MODULO_SCALAR then if b == 0 then 0 else And(a % b, mask)
    else if op == MIN || op == MIN_SCALAR then if a < b then a else b
    else if op == MAX || op == MAX_SCALAR then if a > b then a else b
    else if op == BLEND then a
    else if op == XOR || op == XOR_SCALAR then And(Xor(a, b), mask)
    else if op == AND || op == AND_SCALAR then And(And(a, b), mask)
    else if op == OR || op == OR_SCALAR then And(Or(a, b), mask)
    else if op == NOR then And(Complement(Or(a, b)), mask)
    else if op == NAND then And(Complement(And(a, b)), mask)
    else if op == SHIFT_LEFT then
      if b % U64 >= TypeBitCount(t) then 0 else And(WrappingShl(a, b % U32), mask)
    else if op == SHIFT_RIGHT then
      if b % U64 >= TypeBitCount(t) then 0 else And(WrappingShr(a, b % U32), mask)
    else if op == ROTATE_LEFT then And(Rotate(a, b, t, true), mask)
    else if op == ROTATE_RIGHT then And(Rotate(a, b, t, false), mask)
    else if op == IS_LESS_THAN || op == IS_LESS_THAN_SCALAR then Flag(a < b)
    else if op == IS_EQUAL || op == IS_EQUAL_SCALAR then Flag(a == b)
    else if op == IS_NOT_EQUAL || op == IS_NOT_EQUAL_SCALAR then Flag(a != b)
    else if op == IS_GREATER_THAN || op == IS_GREATER_THAN_SCALAR then Flag(a > b)
    else if op == IS_GREATER_OR_EQUAL || op == IS_GREATER_OR_EQUAL_SCALAR then Flag(a >= b)
    else if op == IS_LESS_OR_EQUAL || op == IS_LESS_OR_EQUAL_SCALAR then Flag(a <= b)
    else if op == RANDOM_RANGE then if b == 0 then 0 else And(Mix(a), mask) % b
    else 0
  }

  function UnaryValue(op: nat, a: nat, t: FheType): nat {
    var mask := TypeBitMask(t);
    if op == NEGATE then And((0 - a) % U128, mask)
    else if op == NOT then And(Complement(a), mask)
    else if op == TO_BOOLEAN then Flag(a != 0)
    else if op == BOOTSTRAP || op == THIN_BOOTSTRAP then And(a, mask)
    else if op == EXTRACT_LSBS then And(a, 1)
    else if op == EXTRACT_MSBS then
      var bits := TypeBitCount(t);
      if bits == 0 then 0 else And(Quotient(a, Pow2(bits - 1)), 1)
    else if op == INTO || op == PACK_INTO then And(a, mask)
    else if op == RANDOM then And(Mix(a), mask)
    else if KEY_FROM <= op <= KEY_RE_ENCRYPT then And(a, mask)
    else 0
  }

  // ---- widths ----

  /** Bits of the plaintext range of a type. */
  function Width(t: FheType): nat {
    if t == E_BOOL then 1
    else if t == E_UINT8 then 8
    else if t == E_UINT16 then 16
    else if t == E_UINT32 then 32
    else if t == E_UINT64 then 64
    else 128
  }

  predicate InRange(v: nat, t: FheType) {
    v < Pow2(Width(t))
  }

  lemma MaskIsWidth(t: FheType)
    ensures TypeBitMask(t) == Pow2(Width(t)) - 1
  {
    Pow2Literals();
  }

  lemma FlagInRange(t: FheType)
    ensures InRange(0, t) && InRange(1, t)
  {
    Pow2Monotone(1, Width(t));
    Pow2Literals();
  }

  /** A small scalar's range fits in its bytes, and in a u128. */
  lemma RangeFitsBytes(t: FheType)
    requires IsSmallScalar(t)
    ensures Width(t) <= 8 * ByteWidth(t) && ByteWidth(t) <= 16
    ensures Pow2(Width(t)) <= Pow2(8 * ByteWidth(t)) <= U128
  {
    Pow2Monotone(Width(t), 8 * ByteWidth(t));
    Pow2Monotone(8 * ByteWidth(t), 128);
    Pow2Literals();
  }

  // ---- closure ----

  lemma BinaryClosed(op: nat, a: nat, b: nat, t: FheType)
    requires InRange(a, t) && InRange(b, t)
    ensures InRange(BinaryValue(op, a, b, t), t)
  {
    MaskIsWidth(t);
    FlagInRange(t);
  }

  lemma UnaryClosed(op: nat, a: nat, t: FheType)
    ensures InRange(UnaryValue(op, a, t), t)
  {
    MaskIsWidth(t);
    FlagInRange(t);
  }

  // ---- integer meaning ----

  /** Reducing a u128 result to the type is reducing the exact integer modulo 2^width. */
  lemma TruncateU128(x: int, t: FheType)
    requires IsSmallScalar(t)
    ensures And(x % U128, TypeBitMask(t)) == x % Pow2(Width(t))
  {
    hide Pow2, And, TypeBitMask;
    MaskIsWidth(t);
    AndMask(x % U128, Width(t));
    Pow2Literals();
    ModPow2(x, 128, Width(t));
  }

  lemma SmallMod(x: nat, m: nat)
    requires x < m
    ensures x % m == x
  {
    DivModUnique(x, m, 0, x);
  }

  lemma RingOpsAreModular(a: nat, b: nat, t: FheType)
    requires IsSmallScalar(t)
    ensures BinaryValue(ADD, a, b, t) == (a + b) % Pow2(Width(t))
    ensures BinaryValue(SUBTRACT, a, b, t) == (a - b) % Pow2(Width(t))
    ensures BinaryValue(MULTIPLY, a, b, t) == a * b % Pow2(Width(t))
    ensures UnaryValue(NEGATE, a, t) == (0 - a) % Pow2(Width(t))
  {
    TruncateU128(a + b, t);
    TruncateU128(a - b, t);
    TruncateU128(a * b, t);
    TruncateU128(0 - a, t);
  }

  /** Division and remainder are exact on in-range operands, and give 0 for a zero divisor. */
  lemma DivisionIsExact(a: nat, b: nat, t: FheType)
    requires InRange(a, t) && InRange(b, t)
    ensures BinaryValue(DIVIDE, a, b, t) == if b == 0 then 0 else a / b
    ensures BinaryValue(MODULO, a, b, t) == if b == 0 then 0 else a % b
  {
    if b != 0 {
      DivLe(a, b);
      MaskedInRange(a / b, t);
      MaskedInRange(a % b, t);
    }
  }

  /** Masking a value that is already in range changes nothing. */
  lemma MaskedInRange(x: nat, t: FheType)
    requires InRange(x, t)
    ensures And(x, TypeBitMask(t)) == x
  {
    MaskIsWidth(t);
    AndMask(x, Width(t));
    SmallMod(x, Pow2(Width(t)));
  }

  /** The smaller and the larger operand. */
  lemma MinMaxChoose(a: nat, b: nat, t: FheType)
    ensures var m := BinaryValue(MIN, a, b, t); m <= a && m <= b && (m == a || m == b)
    ensures var m := BinaryValue(MAX, a, b, t); m >= a && m >= b && (m == a || m == b)
  {
    hide And, Or, Xor, Rotate, Mix, TypeBitMask;
  }

  /** A conversion is reduction modulo the width of the type it targets, and so is a bootstrap. */
  lemma ConversionsReduce(a: nat, t: FheType)
    ensures UnaryValue(INTO, a, t) == UnaryValue(PACK_INTO, a, t) == a % Pow2(Width(t))
    ensures UnaryValue(BOOTSTRAP, a, t) == UnaryValue(THIN_BOOTSTRAP, a, t) == a % Pow2(Width(t))
    ensures UnaryValue(TO_BOOLEAN, a, t) == if a == 0 then 0 else 1
  {
    hide Pow2, And, TypeBitMask, Width, Mix;
    MaskIsWidth(t);
    AndMask(a, Width(t));
  }

  /** The key operations keep a value in range as it is. */
  lemma KeyOperationsReduce(op: nat, a: nat, t: FheType)
    requires KEY_FROM <= op <= KEY_RE_ENCRYPT
    ensures UnaryValue(op, a, t) == a % Pow2(Width(t))
  {
    hide Pow2, And, TypeBitMask, Width, Mix;
    MaskIsWidth(t);
    AndMask(a, Width(t));
  }

  /** The lowest and the highest bit. On an encrypted bool the highest bit of its byte is clear. */
  lemma ExtractsEnds(a: nat, t: FheType)
    requires IsSmallScalar(t) && InRange(a, t)
    ensures UnaryValue(EXTRACT_LSBS, a, t) == a % 2
    ensures UnaryValue(EXTRACT_MSBS, a, t) == if t != E_BOOL && a >= Pow2(Width(t) - 1) then 1 else 0
  {
    hide Pow2, And, Complement, Mix, TypeBitMask;
    AndOne(a);
    HighBitIndex(a, t);
    TopBit(a, TypeBitCount(t) - 1);
  }

  lemma AndOne(a: nat)
    ensures And(a, 1) == a % 2
  {
    AndMask(a, 1);
    Pow2Small();
  }

  lemma HighBitIndex(a: nat, t: FheType)
    requires IsSmallScalar(t) && InRange(a, t)
    ensures TypeBitCount(t) > 0 && a < Pow2(TypeBitCount(t) - 1 + 1)
    ensures a >= Pow2(TypeBitCount(t) - 1) <==> t != E_BOOL && a >= Pow2(Width(t) - 1)
  {
    hide Pow2;
    if t == E_BOOL {
      Pow2Small();
      Pow2Monotone(1, 7);
      Pow2Monotone(1, 8);
    } else {
      BitCountIsWidth(t);
    }
  }

  /** The bit at n of a number below 2^(n + 1). */
  lemma TopBit(a: nat, n: nat)
    requires a < Pow2(n + 1)
    ensures And(Quotient(a, Pow2(n)), 1) == if a >= Pow2(n) then 1 else 0
  {
    assert Pow2(n + 1) == 2 * Pow2(n);
    hide Pow2, And;
    if a >= Pow2(n) {
      DivModUnique(a, Pow2(n), 1, a - Pow2(n));
    } else {
      DivModUnique(a, Pow2(n), 0, a);
    }
    AndOne(Quotient(a, Pow2(n)));
  }

  /** The mock's randomness is one step of a linear congruential generator, reduced to the type; a
      range draw is that step reduced once more, by the bound. */
  lemma RandomIsCongruential(a: nat, b: nat, t: FheType)
    requires IsSmallScalar(t)
    ensures var step := (a * 6364136223846793005 + 1442695040888963407) % Pow2(Width(t));
            && UnaryValue(RANDOM, a, t) == step
            && BinaryValue(RANDOM_RANGE, a, b, t) == if b == 0 then 0 else step % b
  {
    hide Pow2, And, TypeBitMask, Width;
    var n := a * 6364136223846793005;
    ModAddMultiple(n % U128 + 1442695040888963407, n / U128, U128);
    assert n + 1442695040888963407 == n % U128 + 1442695040888963407 + n / U128 * U128;
    TruncateU128(n + 1442695040888963407, t);
  }

  /** An instruction used with the wrong number of operands gives 0 on scalars, and so does one that moves
      lanes; a blend keeps its first operand. */
  lemma MisplacedGivesZero(op: nat, a: nat, b: nat, t: FheType)
    ensures op == NEGATE || op == NOT || SELECT <= op <= RANDOM || EXTRACT_LSBS <= op ==> BinaryValue(op, a, b, t) == 0
    ensures op == ADD || op == MULTIPLY || SUBTRACT <= op <= AND || OR <= op <= SELECT_SCALAR || GATHER <= op <= GET ==>
              UnaryValue(op, a, t) == 0
    ensures BinaryValue(BLEND, a, b, t) == a
  {
    hide Bits.And, Bits.Or, Bits.Xor, Rotate, Mix, TypeBitMask, Complement, TypeBitCount, Pow2;
  }

  /** Bit i of every bitwise operation is the Boolean operation on bits i of the operands. */
  lemma BitwiseOpsAreBitwise(a: nat, b: nat, t: FheType, i: nat)
    requires i < Width(t)
    ensures Bit(BinaryValue(XOR, a, b, t), i) == (Bit(a, i) != Bit(b, i))
    ensures Bit(BinaryValue(AND, a, b, t), i) == (Bit(a, i) && Bit(b, i))
    ensures Bit(BinaryValue(OR, a, b, t), i) == (Bit(a, i) || Bit(b, i))
  {
    XorBits(a, b, i);
    AndBits(a, b, i);
    OrBits(a, b, i);
    MaskedBit(Xor(a, b), t, i);
    MaskedBit(And(a, b), t, i);
    MaskedBit(Or(a, b), t, i);
  }

  /** ... and the complementing operations are the negated ones, on u128 operands. */
  lemma ComplementsAreBitwise(a: nat, b: nat, t: FheType, i: nat)
    requires a < U128 && b < U128 && i < Width(t)
    ensures Bit(BinaryValue(NOR, a, b, t), i) == !(Bit(a, i) || Bit(b, i))
    ensures Bit(BinaryValue(NAND, a, b, t), i) == !(Bit(a, i) && Bit(b, i))
    ensures Bit(UnaryValue(NOT, a, t), i) == !Bit(a, i)
  {
    hide Pow2, And, Or, Bit, Complement, TypeBitMask, Width;
    Pow2Literals();
    BitwiseBounds(a, b, 128);
    AndBits(a, b, i);
    OrBits(a, b, i);
    ComplementBit(Or(a, b), t, i);
    ComplementBit(And(a, b), t, i);
    ComplementBit(a, t, i);
  }

  lemma MaskedBit(x: nat, t: FheType, i: nat)
    requires i < Width(t)
    ensures Bit(And(x, TypeBitMask(t)), i) == Bit(x, i)
  {
    MaskIsWidth(t);
    AndMask(x, Width(t));
    ModBits(x, Width(t), i);
  }

  lemma ComplementBit(x: nat, t: FheType, i: nat)
    requires x < U128 && i < Width(t)
    ensures Bit(And(Complement(x), TypeBitMask(t)), i) == !Bit(x, i)
  {
    hide Pow2, And, Bit, TypeBitMask;
    MaskedBit(Complement(x), t, i);
    Pow2Literals();
    OnesMinus(x, 128, i);
  }

  lemma {:induction false} OnesMinus(x: nat, n: nat, i: nat)
    requires x < Pow2(n) && i < n
    ensures Bit(Pow2(n) - 1 - x, i) == !Bit(x, i)
    decreases n
  {
    var y := Pow2(n) - 1 - x;
    assert y % 2 == 1 - x % 2 && y / 2 == Pow2(n - 1) - 1 - x / 2;
    if i > 0 {
      OnesMinus(x / 2, n - 1, i - 1);
    }
  }

  // ---- shifts ----

  /** The shift amount is compared to the width after truncation to 64 bits. It is honest when
      that truncation neither changes it nor brings an out-of-range amount back into range. */
  predicate ShiftAmountHonest(b: nat, width: nat) {
    b < U64 || b % U64 >= width
  }

  /** An amount below 128 after truncation to 64 bits is the same after truncation to 32. */
  lemma TruncationHarmless(b: nat)
    requires b % U64 < 128
    ensures b % U32 == b % U64 && b % U32 % 128 == b % U64
  {
    assert U32 * U32 == U64;
    ModMod(b, U32, U32);
  }

  lemma LeftShiftWithin(a: nat, b: nat, t: FheType)
    requires E_UINT8 <= t <= E_UINT128 && b % U64 < Width(t)
    ensures BinaryValue(SHIFT_LEFT, a, b, t) == a * Pow2(b % U64) % Pow2(Width(t))
  {
    hide Pow2, And, Or, Xor, Rotate, Mix, Width, TypeBitCount;
    BitCountIsWidth(t);
    TruncationHarmless(b);
    TruncateU128(a * Pow2(b % U64), t);
  }

  lemma RightShiftWithin(a: nat, b: nat, t: FheType)
    requires E_UINT8 <= t <= E_UINT128 && InRange(a, t) && b % U64 < Width(t)
    ensures BinaryValue(SHIFT_RIGHT, a, b, t) == Quotient(a, Pow2(b % U64))
  {
    TruncationHarmless(b);
    BitCountIsWidth(t);
    MaskedInRange(Quotient(a, Pow2(b % U64)), t);
  }

  lemma BitCountIsWidth(t: FheType)
    requires E_UINT8 <= t <= E_UINT128
    ensures TypeBitCount(t) == Width(t) && 0 < Width(t) <= 128
  {
  }

  lemma ShiftedOut(a: nat, b: nat, w: nat)
    requires b >= w
    ensures a * Pow2(b) % Pow2(w) == 0
    ensures a < Pow2(w) ==> Quotient(a, Pow2(b)) == 0
  {
    Pow2Add(b - w, w);
    MulAssoc(a, Pow2(b - w), Pow2(w));
    DivModUnique(a * Pow2(b), Pow2(w), a * Pow2(b - w), 0);
    Pow2Monotone(w, b);
    if a < Pow2(w) {
      DivModUnique(a, Pow2(b), 0, a);
    }
  }

  /** A left shift within the width leaves nothing exactly when the bits that stay are all clear. */
  lemma LeftShiftLeavesNothing(a: nat, s: nat, w: nat)
    requires s <= w
    ensures a * Pow2(s) % Pow2(w) == 0 <==> a % Pow2(w - s) == 0
  {
    hide Pow2;
    Pow2Add(s, w - s);
    ScaledMod(a, Pow2(s), Pow2(w - s));
    if a % Pow2(w - s) > 0 {
      MulLe(1, a % Pow2(w - s), Pow2(s));
    }
  }

  /** Scaling number and modulus scales the remainder. */
  lemma ScaledMod(a: nat, p: nat, m: nat)
    requires p > 0 && m > 0
    ensures p * m > 0 && a * p % (p * m) == a % m * p
  {
    var q, r := a / m, a % m;
    MulLe(r, m - 1, p);
    assert (m - 1) * p + p == p * m;
    ScaledSum(a, p, m, q, r);
    DivModUnique(a * p, p * m, q, r * p);
  }

  lemma ScaledSum(a: nat, p: nat, m: nat, q: nat, r: nat)
    requires a == q * m + r
    ensures a * p == q * (p * m) + r * p
  {
    MulAssoc(q, m, p);
    assert (q * m + r) * p == q * m * p + r * p;
  }

  lemma RightShiftLeavesNothing(a: nat, s: nat)
    ensures Quotient(a, Pow2(s)) == 0 <==> a < Pow2(s)
  {
    if a < Pow2(s) {
      DivModUnique(a, Pow2(s), 0, a);
    }
  }

  /** A left shift is multiplication by 2^b modulo 2^width exactly when the amount is honest, or every
      set bit leaves even after truncation. */
  predicate LeftShiftKept(a: nat, b: nat, width: nat) {
    ShiftAmountHonest(b, width) || a % Pow2(width - b % U64) == 0
  }

  lemma LeftShiftExact(a: nat, b: nat, t: FheType)
    requires E_UINT8 <= t <= E_UINT128
    ensures BinaryValue(SHIFT_LEFT, a, b, t) == a * Pow2(b) % Pow2(Width(t)) <==> LeftShiftKept(a, b, Width(t))
  {
    hide Pow2, And, Or, Xor, Rotate, Mix, Width;
    var w := Width(t);
    BitCountIsWidth(t);
    if b >= w {
      ShiftedOut(a, b, w);
    }
    if b % U64 < w {
      LeftShiftWithin(a, b, t);
      LeftShiftLeavesNothing(a, b % U64, w);
    }
    if b < U64 {
      SmallMod(b, U64);
    }
  }

  /** A right shift is division by 2^b exactly when the amount is honest, or every set bit leaves. */
  predicate RightShiftKept(a: nat, b: nat, width: nat) {
    ShiftAmountHonest(b, width) || a < Pow2(b % U64)
  }

  lemma RightShiftExact(a: nat, b: nat, t: FheType)
    requires E_UINT8 <= t <= E_UINT128 && InRange(a, t)
    ensures BinaryValue(SHIFT_RIGHT, a, b, t) == Quotient(a, Pow2(b)) <==> RightShiftKept(a, b, Width(t))
  {
    hide Pow2, And, Or, Xor, Rotate, Mix, Width;
    var w := Width(t);
    BitCountIsWidth(t);
    if b >= w {
      ShiftedOut(a, b, w);
    }
    if b % U64 < w {
      RightShiftWithin(a, b, t);
      RightShiftLeavesNothing(a, b % U64);
    }
    if b < U64 {
      SmallMod(b, U64);
    }
  }

  /** The smallest dishonest shift: by 2^64, a 128-bit value comes back unshifted. */
  lemma ShiftBy2To64IsLost()
    ensures BinaryValue(SHIFT_LEFT, 1, U64, E_UINT128) == 1
    ensures 1 * Pow2(U64) % Pow2(128) == 0
  {
    LeftShiftWithin(1, U64, E_UINT128);
    assert Pow2(0) == 1;
    Pow2Monotone(1, 128);
    SmallMod(1, Pow2(128));
    ShiftedOut(1, U64, 128);
  }

  /** An encrypted bool shifts like a one-bit number. */
  lemma BoolShifts(a: nat, b: nat)
    requires a < 2 && b < 2
    ensures BinaryValue(SHIFT_LEFT, a, b, E_BOOL) == a * Pow2(b) % 2
    ensures BinaryValue(SHIFT_RIGHT, a, b, E_BOOL) == Quotient(a, Pow2(b))
  {
    hide Or, Xor, Rotate, Mix;
    assert Pow2(0) == 1 && Pow2(1) == 2;
    SmallMod(b, U64);
    SmallMod(b, U32);
    SmallMod(b, 128);
    SmallMod(a * Pow2(b), U128);
    MaskedInRange(Quotient(a, Pow2(b)), E_BOOL);
    AndMask(a * Pow2(b), 1);
  }

  // ---- rotation ----

  /** r holds a's W bits moved up by n places, wrapping around. */
  predicate RotatedLeft(a: nat, r: nat, n: nat, W: nat)
    requires W > 0
  {
    r < Pow2(W) && forall j: nat :: j < W ==> Bit(r, j) == Bit(a, (j + W - n % W) % W)
  }

  /** r holds a's W bits moved down by n places, wrapping around. */
  predicate RotatedRight(a: nat, r: nat, n: nat, W: nat)
    requires W > 0
  {
    r < Pow2(W) && forall j: nat :: j < W ==> Bit(r, j) == Bit(a, (j + n % W) % W)
  }

  lemma HighBitsClear(x: nat, n: nat, i: nat)
    requires x < Pow2(n) && i >= n
    ensures !Bit(x, i)
  {
    SmallMod(x, Pow2(n));
    ModBits(x, n, i);
  }

  /** The width divides 2^32, so truncating the amount to u32 does not change it modulo the width. */
  lemma RotationAmount(n: nat, t: FheType)
    requires E_UINT8 <= t <= E_UINT128
    ensures n % U32 % Width(t) == n % Width(t)
  {
    var w := Width(t);
    assert w == 8 || w == 16 || w == 32 || w == 64 || w == 128;
    assert (U32 / w) * w == U32;
    ModMod(n, U32 / w, w);
  }

  lemma ShlBit(v: nat, s: nat, j: nat)
    requires s < 128 && j < 128
    ensures Bit(WrappingShl(v, s), j) == (j >= s && Bit(v, j - s))
  {
    Pow2Literals();
    SmallMod(s, 128);
    ModBits(v * Pow2(s), 128, j);
    MulBits(v, s, j);
  }

  lemma ShrBit(v: nat, s: nat, j: nat)
    requires s < 128
    ensures Bit(WrappingShr(v, s), j) == Bit(v, s + j)
  {
    SmallMod(s, 128);
    DivBits(v, s, j);
  }

  lemma WrapIndex(i: nat, W: nat)
    requires 0 < W && i < 2 * W
    ensures i % W == if i < W then i else i - W
  {
    DivModUnique(i, W, if i < W then 0 else 1, if i < W then i else i - W);
  }

  /** One half of a is shifted up by s and the other down by W - s; bit by bit that is a rotation. */
  lemma TwoShiftsBit(a: nat, s: nat, W: nat, j: nat)
    requires 0 < s < W <= 128 && j < W && a < Pow2(W)
    ensures Bit(Or(WrappingShl(a, s), WrappingShr(a, W - s)), j) == Bit(a, (j + W - s) % W)
  {
    OrBits(WrappingShl(a, s), WrappingShr(a, W - s), j);
    ShlBit(a, s, j);
    ShrBit(a, W - s, j);
    WrapIndex(j + W - s, W);
    if j >= s {
      HighBitsClear(a, W, W - s + j);
    }
  }

  lemma RotateLeftBit(a: nat, n: nat, t: FheType, j: nat)
    requires E_UINT8 <= t <= E_UINT128 && InRange(a, t) && j < Width(t)
    ensures Bit(Rotate(a, n, t, true), j) == Bit(a, (j + Width(t) - n % Width(t)) % Width(t))
  {
    hide Pow2, Or, Bit, WrappingShl, WrappingShr, TypeBitCount, Width;
    var W, s := Width(t), n % Width(t);
    BitCountIsWidth(t);
    RotationAmount(n, t);
    if s == 0 {
      WrapIndex(j + W, W);
    } else {
      TwoShiftsBit(a, s, W, j);
    }
  }

  lemma RotateRightBit(a: nat, n: nat, t: FheType, j: nat)
    requires E_UINT8 <= t <= E_UINT128 && InRange(a, t) && j < Width(t)
    ensures Bit(Rotate(a, n, t, false), j) == Bit(a, (j + n % Width(t)) % Width(t))
  {
    hide Pow2, Or, Bit, WrappingShl, WrappingShr, TypeBitCount, Width;
    var W, s := Width(t), n % Width(t);
    BitCountIsWidth(t);
    RotationAmount(n, t);
    if s == 0 {
      WrapIndex(j, W);
    } else {
      OrCommutes(WrappingShr(a, s), WrappingShl(a, W - s));
      TwoShiftsBit(a, W - s, W, j);
    }
  }

  lemma MaskedBelow(x: nat, t: FheType)
    ensures And(x, TypeBitMask(t)) < Pow2(Width(t))
  {
    MaskIsWidth(t);
  }

  lemma RotateLeftExact(a: nat, n: nat, t: FheType)
    requires E_UINT8 <= t <= E_UINT128 && InRange(a, t)
    ensures RotatedLeft(a, BinaryValue(ROTATE_LEFT, a, n, t), n, Width(t))
  {
    hide Pow2, And, Bit, Rotate, TypeBitMask, Width;
    var x := Rotate(a, n, t, true);
    MaskedBelow(x, t);
    forall j: nat | j < Width(t)
      ensures Bit(And(x, TypeBitMask(t)), j) == Bit(a, (j + Width(t) - n % Width(t)) % Width(t))
    {
      RotateLeftBit(a, n, t, j);
      MaskedBit(x, t, j);
    }
  }

  lemma RotateRightExact(a: nat, n: nat, t: FheType)
    requires E_UINT8 <= t <= E_UINT128 && InRange(a, t)
    ensures RotatedRight(a, BinaryValue(ROTATE_RIGHT, a, n, t), n, Width(t))
  {
    hide Pow2, And, Bit, Rotate, TypeBitMask, Width;
    var x := Rotate(a, n, t, false);
    MaskedBelow(x, t);
    forall j: nat | j < Width(t)
      ensures Bit(And(x, TypeBitMask(t)), j) == Bit(a, (j + n % Width(t)) % Width(t))
    {
      RotateRightBit(a, n, t, j);
      MaskedBit(x, t, j);
    }
  }

  lemma IndexAdd(j: nat, m: nat, n: nat, k: nat, W: nat)
    requires W > 0 && j < W && k % W == (m + n) % W
    ensures ((j + W - n % W) % W + W - m % W) % W == (j + W - k % W) % W
  {
    var x, y := m % W, n % W;
    SumWraps(m, n, W);
    WrapIndex(j + W - y, W);
    WrapIndex((j + W - y) % W + W - x, W);
    WrapIndex(j + W - k % W, W);
  }

  lemma SumWraps(m: nat, n: nat, W: nat)
    requires W > 0
    ensures (m + n) % W == if m % W + n % W < W then m % W + n % W else m % W + n % W - W
  {
    ModAddMultiple(m % W + n % W, m / W + n / W, W);
    assert m + n == m % W + n % W + (m / W + n / W) * W;
    WrapIndex(m % W + n % W, W);
  }

  /** Rotating by m and then by n is the rotation by any amount congruent to m + n. */
  lemma ComposeRotations(a: nat, b: nat, c: nat, d: nat, m: nat, n: nat, k: nat, W: nat)
    requires W > 0 && k % W == (m + n) % W
    requires RotatedLeft(a, b, m, W) && RotatedLeft(b, c, n, W) && RotatedLeft(a, d, k, W)
    ensures c == d
  {
    forall j: nat | j < W
      ensures Bit(c, j) == Bit(d, j)
    {
      IndexAdd(j, m, n, k, W);
    }
    SameBits(c, d, W);
  }

  lemma RotationsAdd(a: nat, m: nat, n: nat, k: nat, t: FheType)
    requires E_UINT8 <= t <= E_UINT128 && InRange(a, t)
    requires k % Width(t) == (m + n) % Width(t)
    ensures BinaryValue(ROTATE_LEFT, BinaryValue(ROTATE_LEFT, a, m, t), n, t) == BinaryValue(ROTATE_LEFT, a, k, t)
  {
    var once := BinaryValue(ROTATE_LEFT, a, m, t);
    RotateLeftExact(a, m, t);
    RotateLeftExact(once, n, t);
    RotateLeftExact(a, k, t);
    ComposeRotations(a, once, BinaryValue(ROTATE_LEFT, once, n, t), BinaryValue(ROTATE_LEFT, a, k, t),
                     m, n, k, Width(t));
  }

  lemma IndexAddRight(j: nat, m: nat, n: nat, k: nat, W: nat)
    requires W > 0 && j < W && k % W == (m + n) % W
    ensures ((j + n % W) % W + m % W) % W == (j + k % W) % W
  {
    var x, y := m % W, n % W;
    SumWraps(m, n, W);
    WrapIndex(j + y, W);
    WrapIndex((j + y) % W + x, W);
    WrapIndex(j + k % W, W);
  }

  lemma ComposeRightRotations(a: nat, b: nat, c: nat, d: nat, m: nat, n: nat, k: nat, W: nat)
    requires W > 0 && k % W == (m + n) % W
    requires RotatedRight(a, b, m, W) && RotatedRight(b, c, n, W) && RotatedRight(a, d, k, W)
    ensures c == d
  {
    forall j: nat | j < W
      ensures Bit(c, j) == Bit(d, j)
    {
      IndexAddRight(j, m, n, k, W);
    }
    SameBits(c, d, W);
  }

  /** Right rotations add in the same way. */
  lemma RightRotationsAdd(a: nat, m: nat, n: nat, k: nat, t: FheType)
    requires E_UINT8 <= t <= E_UINT128 && InRange(a, t)
    requires k % Width(t) == (m + n) % Width(t)
    ensures BinaryValue(ROTATE_RIGHT, BinaryValue(ROTATE_RIGHT, a, m, t), n, t) == BinaryValue(ROTATE_RIGHT, a, k, t)
  {
    hide BinaryValue, Width, Pow2;
    var once := BinaryValue(ROTATE_RIGHT, a, m, t);
    BitCountIsWidth(t);
    RotateRightExact(a, m, t);
    RotateRightExact(once, n, t);
    RotateRightExact(a, k, t);
    ComposeRightRotations(a, once, BinaryValue(ROTATE_RIGHT, once, n, t), BinaryValue(ROTATE_RIGHT, a, k, t),
                          m, n, k, Width(t));
  }

  lemma UndoIndex(j: nat, y: nat, W: nat)
    requires j < W && y < W
    ensures (j + W - y) % W < W && ((j + W - y) % W + y) % W == j
  {
    WrapIndex(j + W - y, W);
    WrapIndex((j + W - y) % W + y, W);
  }

  lemma UndoRightRotation(a: nat, b: nat, c: nat, n: nat, W: nat)
    requires W > 0 && a < Pow2(W) && RotatedRight(a, b, n, W) && RotatedLeft(b, c, n, W)
    ensures c == a
  {
    forall j: nat | j < W
      ensures Bit(c, j) == Bit(a, j)
    {
      UndoIndex(j, n % W, W);
    }
    SameBits(c, a, W);
  }

  /** ... and a left rotation undoes the right one. */
  lemma RotateLeftUndoesRight(a: nat, n: nat, t: FheType)
    requires E_UINT8 <= t <= E_UINT128 && InRange(a, t)
    ensures BinaryValue(ROTATE_LEFT, BinaryValue(ROTATE_RIGHT, a, n, t), n, t) == a
  {
    hide BinaryValue, Width, Pow2;
    var once := BinaryValue(ROTATE_RIGHT, a, n, t);
    BitCountIsWidth(t);
    RotateRightExact(a, n, t);
    RotateLeftExact(once, n, t);
    UndoRightRotation(a, once, BinaryValue(ROTATE_LEFT, once, n, t), n, Width(t));
  }

  lemma UndoRotation(a: nat, b: nat, c: nat, n: nat, W: nat)
    requires W > 0 && a < Pow2(W) && RotatedLeft(a, b, n, W) && RotatedRight(b, c, n, W)
    ensures c == a
  {
    forall j: nat | j < W
      ensures Bit(c, j) == Bit(a, j)
    {
      WrapIndex(j + n % W, W);
      WrapIndex((j + n % W) % W + W - n % W, W);
    }
    SameBits(c, a, W);
  }

  /** A right rotation undoes the left rotation by the same amount. */
  lemma RotateRightUndoesLeft(a: nat, n: nat, t: FheType)
    requires E_UINT8 <= t <= E_UINT128 && InRange(a, t)
    ensures BinaryValue(ROTATE_RIGHT, BinaryValue(ROTATE_LEFT, a, n, t), n, t) == a
  {
    var once := BinaryValue(ROTATE_LEFT, a, n, t);
    RotateLeftExact(a, n, t);
    RotateRightExact(once, n, t);
    UndoRotation(a, once, BinaryValue(ROTATE_RIGHT, once, n, t), n, Width(t));
  }
}
