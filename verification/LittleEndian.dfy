/** Little-endian byte strings, and the 16-byte buffers a u128 is read from and written to. */
module LittleEndian {
  import opened Arith

  type byte = x: int | 0 <= x < 256

  function Zeros(n: nat): (s: seq<byte>)
    ensures |s| == n
  {
    seq(n, _ => 0)
  }

  function ToLe(v: nat, n: nat): (s: seq<byte>)
    ensures |s| == n
  {
    if n == 0 then [] else [v % 256] + ToLe(v / 256, n - 1)
  }

  function FromLe(s: seq<byte>): nat {
    if s == [] then 0 else s[0] + 256 * FromLe(s[1..])
  }

  lemma Pow2Bytes(n: nat)
    requires n > 0
    ensures Pow2(8 * n) == 256 * Pow2(8 * (n - 1))
  {
    hide Pow2;
    Pow2Add(8, 8 * (n - 1));
    Pow2Literals();
  }

  /** Writing n bytes and reading them back loses exactly what does not fit in n bytes. */
  lemma {:induction false} FromToLe(v: nat, n: nat)
    ensures FromLe(ToLe(v, n)) == v % Pow2(8 * n)
    decreases n
  {
    if n == 0 {
    } else {
      FromToLe(v / 256, n - 1);
      assert ToLe(v, n)[1..] == ToLe(v / 256, n - 1);
      Pow2Bytes(n);
      LowByte(v, Pow2(8 * (n - 1)));
    }
  }

  lemma LowByte(v: nat, p: nat)
    requires p > 0
    ensures v % (256 * p) == 256 * (v / 256 % p) + v % 256
  {
    var q, r := v / 256 / p, v / 256 % p;
    assert v / 256 == q * p + r;
    assert q * (256 * p) == 256 * (q * p);
    DivModUnique(v, 256 * p, q, 256 * r + v % 256);
  }

  lemma {:induction false} FromLeBound(s: seq<byte>)
    ensures FromLe(s) < Pow2(8 * |s|)
  {
    if s != [] {
      FromLeBound(s[1..]);
      Pow2Bytes(|s|);
    }
  }

  /** Reading a byte string and writing it back is the identity. */
  lemma {:induction false} ToFromLe(s: seq<byte>)
    ensures ToLe(FromLe(s), |s|) == s
  {
    if s != [] {
      ToFromLe(s[1..]);
      var v := FromLe(s);
      assert v % 256 == s[0] && v / 256 == FromLe(s[1..]);
      assert s == [s[0]] + s[1..];
    }
  }

  lemma {:induction false} ToLePrefix(v: nat, n: nat, k: nat)
    requires k <= n
    ensures ToLe(v, n)[..k] == ToLe(v, k)
    decreases k
  {
    if k > 0 {
      ToLePrefix(v / 256, n - 1, k - 1);
      assert ToLe(v, n)[..k] == [v % 256] + ToLe(v / 256, n - 1)[..k - 1];
    }
  }

  lemma {:induction false} FromLeZeros(n: nat)
    ensures FromLe(Zeros(n)) == 0
  {
    if n > 0 {
      FromLeZeros(n - 1);
      assert Zeros(n)[1..] == Zeros(n - 1);
    }
  }

  /** Zero bytes at the most significant end do not change the number. */
  lemma {:induction false} FromLePadded(s: seq<byte>, n: nat)
    ensures FromLe(s + Zeros(n)) == FromLe(s)
  {
    if s == [] {
      FromLeZeros(n);
      assert s + Zeros(n) == Zeros(n);
    } else {
      FromLePadded(s[1..], n);
      assert (s + Zeros(n))[1..] == s[1..] + Zeros(n);
    }
  }

  /** Byte k of the little-endian form. */
  lemma {:induction false} ToLeAt(v: nat, n: nat, k: nat)
    requires k < n
    ensures ToLe(v, n)[k] == Quotient(v, Pow2(8 * k)) % 256
    decreases k
  {
    if k > 0 {
      ToLeAt(v / 256, n - 1, k - 1);
      Pow2Bytes(k);
      DivDiv(v, 256, Pow2(8 * (k - 1)));
    }
  }

  // ---- u128 buffers ----

  const U128: nat := 0x1_0000_0000_0000_0000_0000_0000_0000_0000

  function Min(a: nat, b: nat): nat {
    if a < b then a else b
  }

  /** `bytes_to_u128`: at most the first 16 bytes, zero-padded to a 16-byte buffer. */
  function BytesToU128(data: seq<byte>): nat {
    var len := Min(|data|, 16);
    FromLe(data[..len] + Zeros(16 - len))
  }

  /** `u128_to_bytes`: the low bytes of the value, zero-padded when the width exceeds 16. */
  function U128ToBytes(value: nat, byteWidth: nat): (s: seq<byte>)
    ensures |s| == byteWidth
  {
    var copy := Min(byteWidth, 16);
    ToLe(value, 16)[..copy] + Zeros(byteWidth - copy)
  }

  lemma BytesToU128IsFromLe(data: seq<byte>)
    requires |data| <= 16
    ensures BytesToU128(data) == FromLe(data)
  {
    hide FromLe, Zeros;
    assert Min(|data|, 16) == |data| && data[..|data|] == data;
    FromLePadded(data, 16 - |data|);
  }

  lemma U128ToBytesIsToLe(value: nat, byteWidth: nat)
    requires byteWidth <= 16
    ensures U128ToBytes(value, byteWidth) == ToLe(value, byteWidth)
  {
    ToLePrefix(value, 16, byteWidth);
  }

  /** Encoding at a width of at most 16 bytes and decoding is reduction modulo that width. */
  lemma BytesRoundTrip(value: nat, byteWidth: nat)
    requires byteWidth <= 16
    ensures BytesToU128(U128ToBytes(value, byteWidth)) == value % Pow2(8 * byteWidth)
  {
    U128ToBytesIsToLe(value, byteWidth);
    BytesToU128IsFromLe(ToLe(value, byteWidth));
    FromToLe(value, byteWidth);
  }

  lemma ZerosAreZero(n: nat)
    ensures BytesToU128(Zeros(n)) == 0
  {
    var len := Min(n, 16);
    assert Zeros(n)[..len] + Zeros(16 - len) == Zeros(16);
    FromLeZeros(16);
  }
}
