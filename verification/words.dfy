/**
 * Go's fixed-width integers, as far as the codec uses them.
 *
 * A Go `int` is a 64-bit two's-complement word. The model keeps such values in Dafny's
 * unbounded `int` and writes every wrap-around and every conversion out. The bitwise
 * operators are defined bit by bit; the lemmas relate them to arithmetic.
 */
module Words {
  /** A number of bytes, or none. */
  datatype Length = NoLength | Length(n: nat)

  type byte = x: int | 0 <= x < 256
  type bytes = seq<byte>

  const TWO_31 := 0x8000_0000
  const TWO_32 := 0x1_0000_0000
  const TWO_63 := 0x8000_0000_0000_0000
  const TWO_64 := 0x1_0000_0000_0000_0000

  /** The largest Go `int`, and so the largest length of a Go slice or string. */
  const MAX_INT := 0x7fff_ffff_ffff_ffff

  /** A Go string, as its bytes. */
  type GoString = s: bytes | |s| <= MAX_INT

  type u64 = x: int | 0 <= x < 0x1_0000_0000_0000_0000
  type i64 = x: int | -0x8000_0000_0000_0000 <= x < 0x8000_0000_0000_0000

  /** The value a Go `int` holds after an operation whose exact result is `x`. */
  function Wrap(x: int): (r: i64)
    ensures (x - r) % TWO_64 == 0
    ensures -TWO_63 <= x < TWO_63 ==> r == x
    ensures TWO_63 <= x < TWO_64 ==> r < 0
  {
    var m := x % TWO_64;
    if m < TWO_63 then m else m - TWO_64
  }

  /** Go's conversion `int32(x)`: the low 32 bits, read as two's complement. */
  function ToInt32(x: nat): (r: int)
    ensures -TWO_31 <= r < TWO_31 && (x - r) % TWO_32 == 0
  {
    var m := x % TWO_32;
    if m < TWO_31 then m else m - TWO_32
  }

  function Pow2(k: nat): (r: nat)
    ensures r >= 1
  {
    if k == 0 then 1 else 2 * Pow2(k - 1)
  }

  /** Go's `|` on unsigned words, bit by bit. */
  function BitOr(a: nat, b: nat): nat
    decreases a + b
  {
    if a == 0 && b == 0 then 0
    else (if a % 2 == 1 || b % 2 == 1 then 1 else 0) + 2 * BitOr(a / 2, b / 2)
  }

  /** Go's `&` on unsigned words, bit by bit. */
  function BitAnd(a: nat, b: nat): nat
    decreases a + b
  {
    if a == 0 || b == 0 then 0
    else (if a % 2 == 1 && b % 2 == 1 then 1 else 0) + 2 * BitAnd(a / 2, b / 2)
  }

  /** Go's `v << k` on a uint64: bits shifted past position 63 are lost. */
  function ShiftLeft(v: nat, k: nat): u64 {
    (v * Pow2(k)) % TWO_64
  }

  /** Go's `v >> 7`. */
  function ShiftRight7(v: nat): nat {
    v / 128
  }

  /** `math/bits.Len64`: the number of bits needed to write `x`. */
  function Len64(x: nat): nat {
    if x == 0 then 0 else 1 + Len64(x / 2)
  }

  lemma {:induction false} OrWithZero(b: nat)
    ensures BitOr(0, b) == b
  {
    if b != 0 {
      OrWithZero(b / 2);
    }
  }

  /** Or-ing in bits above position `k` is addition. */
  lemma {:induction false} OrIsAddition(a: nat, b: nat, k: nat)
    requires a < Pow2(k)
    ensures BitOr(a, b * Pow2(k)) == a + b * Pow2(k)
  {
    if k == 0 {
      OrWithZero(b);
    } else {
      var p := b * Pow2(k - 1);
      assert b * Pow2(k) == 2 * p;
      OrIsAddition(a / 2, b, k - 1);
      if a != 0 || p != 0 {
        assert (2 * p) / 2 == p;
      }
    }
  }

  /** Masking with `k` ones leaves what is below a multiple of 2^k. */
  lemma {:induction false} AndLowBits(v: nat, k: nat) returns (q: nat)
    ensures BitAnd(v, Pow2(k) - 1) < Pow2(k)
    ensures v == q * Pow2(k) + BitAnd(v, Pow2(k) - 1)
  {
    if k == 0 {
      q := v;
    } else {
      hide BitAnd;
      q := AndLowBits(v / 2, k - 1);
      var p := Pow2(k - 1);
      assert BitAnd(v, 2 * p - 1) == v % 2 + 2 * BitAnd(v / 2, p - 1) by { AndStep(v, p - 1); }
      TwiceProduct(q, p);
    }
  }

  lemma TwiceProduct(q: nat, p: nat)
    ensures q * (2 * p) == 2 * (q * p)
  {
  }

  lemma AndStep(v: nat, m: nat)
    ensures BitAnd(v, 2 * m + 1) == v % 2 + 2 * BitAnd(v / 2, m)
  {
    if v != 0 {
      assert (2 * m + 1) / 2 == m;
    }
  }

  /** Masking with 0x7f keeps the remainder modulo 128. */
  lemma AndMask7(v: nat)
    ensures BitAnd(v, 0x7f) == v % 128
  {
    hide BitAnd;
    assert Pow2(7) == 128;
    var q := AndLowBits(v, 7);
  }

  /** Or-ing the continuation bit into a 7-bit group adds 128. */
  lemma OrBit7(x: nat)
    requires x < 128
    ensures BitOr(x, 0x80) == x + 128
  {
    assert Pow2(7) == 128;
    OrIsAddition(x, 1, 7);
  }

  /** Setting the low bit does not change how many bits a non-zero word has. */
  lemma Len64OrOne(x: nat)
    ensures Len64(BitOr(x, 1)) == if x == 0 then 1 else Len64(x)
  {
    OrWithZero(1);
    if x != 0 {
      var y := BitOr(x, 1);
      OrComm(x / 2);
      assert y == 1 + 2 * BitOr(x / 2, 0);
      assert y / 2 == x / 2;
    }
  }

  lemma {:induction false} OrComm(b: nat)
    ensures BitOr(b, 0) == b
  {
    if b != 0 {
      OrComm(b / 2);
    }
  }

  lemma Len64Shift7(x: nat)
    requires x >= 128
    ensures Len64(x) == 7 + Len64(x / 128)
  {
    var h := x / 2 / 2 / 2 / 2 / 2 / 2 / 2;
    assert h == x / 128;
    assert Len64(x) == 1 + Len64(x / 2);
    assert Len64(x / 2) == 1 + Len64(x / 2 / 2);
    assert Len64(x / 2 / 2) == 1 + Len64(x / 2 / 2 / 2);
    assert Len64(x / 2 / 2 / 2) == 1 + Len64(x / 2 / 2 / 2 / 2);
    assert Len64(x / 2 / 2 / 2 / 2) == 1 + Len64(x / 2 / 2 / 2 / 2 / 2);
    assert Len64(x / 2 / 2 / 2 / 2 / 2) == 1 + Len64(x / 2 / 2 / 2 / 2 / 2 / 2);
    assert Len64(x / 2 / 2 / 2 / 2 / 2 / 2) == 1 + Len64(h);
  }
}
