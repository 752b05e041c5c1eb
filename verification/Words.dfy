/**
 Machine words of the C sources: fixed-width integers with their wrap-around written out,
 powers of two, the bitwise AND, and little-endian reads of a byte sequence.
 */
module Words {
  const TWO_TO_THE_31: int := 0x8000_0000
  const TWO_TO_THE_32: int := 0x1_0000_0000
  const TWO_TO_THE_64: int := 0x1_0000_0000_0000_0000

  type byte = x: int | 0 <= x < 0x100
  type u32 = x: int | 0 <= x < 0x1_0000_0000
  type u64 = x: int | 0 <= x < 0x1_0000_0000_0000_0000
  type i32 = x: int | -0x8000_0000 <= x < 0x8000_0000

  /** The value of an unsigned 32-bit word stored into a signed `int`. */
  function ToInt32(x: u32): i32 {
    if x < TWO_TO_THE_31 then x else x - TWO_TO_THE_32
  }

  /** The value of a signed `int` passed as an unsigned 32-bit word. */
  function ToU32(x: int): u32 {
    x % TWO_TO_THE_32
  }

  /** A word stored into an `int` and passed on as a word is unchanged. */
  lemma WordThroughInt(x: u32)
    ensures ToU32(ToInt32(x)) == x
  {
  }

  function Pow2(k: nat): (p: nat)
    ensures p >= 1
  {
    if k == 0 then 1 else 2 * Pow2(k - 1)
  }

  lemma {:induction false} Pow2Add(j: nat, k: nat)
    ensures Pow2(j + k) == Pow2(j) * Pow2(k)
  {
    if j == 0 {
    } else {
      Pow2Add(j - 1, k);
    }
  }

  lemma Pow2Of8()
    ensures Pow2(8) == 0x100
  {
  }

  lemma Pow2Values()
    ensures Pow2(8) == 0x100 && Pow2(16) == 0x1_0000
    ensures Pow2(32) == TWO_TO_THE_32 && Pow2(64) == TWO_TO_THE_64
  {
    hide Pow2;
    Pow2Of8();
    Pow2Add(8, 8);
    Pow2Add(16, 16);
    Pow2Add(32, 32);
  }

  /** Bitwise AND, one binary digit at a time. */
  function BitAnd(a: nat, b: nat): nat
    decreases a
  {
    if a == 0 then 0 else (a % 2) * (b % 2) + 2 * BitAnd(a / 2, b / 2)
  }

  /** A quotient and a remainder in range determine `/` and `%`. */
  lemma DivModUnique(x: int, m: int, q: int, r: int)
    requires 0 <= r < m && x == q * m + r
    ensures x / m == q && x % m == r
  {
    var d := x / m - q;
    assert d * m == (x / m) * m - q * m;
    assert -m < d * m < m;
    assert d >= 1 ==> d * m >= m;
    assert d <= -1 ==> d * m <= -m;
  }

  /** Reducing modulo a multiple of `m` first does not change the residue modulo `m`. */
  lemma ModOfMod(x: int, m: nat, k: nat)
    requires m > 0 && k > 0
    ensures m * k > 0 && (x % (m * k)) % m == x % m
  {
    assert m * k > 0;
    var big := m * k;
    var q := x / big;
    var r := x % big;
    var r' := r % m;
    var q' := r / m;
    assert x == q * (m * k) + q' * m + r';
    assert q * (m * k) == (q * k) * m;
    assert (q * k) * m + q' * m == (q * k + q') * m;
    DivModUnique(x, m, q * k + q', r');
  }

  lemma HalvedMod(x: nat, half: nat)
    requires half > 0
    ensures x % (2 * half) == 2 * ((x / 2) % half) + x % 2
  {
    var q, r := (x / 2) / half, (x / 2) % half;
    assert x / 2 == q * half + r;
    assert 2 * (q * half) == q * (2 * half);
    DivModUnique(x, 2 * half, q, 2 * r + x % 2);
  }

  /** Masking with `2^k - 1` is reduction modulo `2^k`. */
  lemma {:induction false} BitAndMask(x: nat, k: nat)
    ensures BitAnd(x, Pow2(k) - 1) == x % Pow2(k)
    decreases k
  {
    if k == 0 {
      BitAndZero(x);
    } else if x == 0 {
    } else {
      var half := Pow2(k - 1);
      var mask := Pow2(k) - 1;
      assert mask == 2 * (half - 1) + 1;
      assert mask % 2 == 1 && mask / 2 == half - 1;
      BitAndMask(x / 2, k - 1);
      HalvedMod(x, half);
      assert (x % 2) * 1 == x % 2;
    }
  }

  lemma {:induction false} BitAndZero(x: nat)
    ensures BitAnd(x, 0) == 0
    decreases x
  {
    if x != 0 {
      BitAndZero(x / 2);
    }
  }

  lemma DivBelow(x: nat, a: nat, d: nat)
    requires d > 0 && x < a * d
    ensures x / d < a
  {
    var q := x / d;
    assert q * d <= x < a * d;
    assert (a - q) * d > 0;
  }

  /** `x >> k` on an unsigned word. */
  function ShiftRight(x: nat, k: nat): (y: nat)
    ensures y <= x
  {
    DivAtMost(x, Pow2(k));
    x / Pow2(k)
  }

  lemma DivAtMost(x: nat, d: nat)
    requires d > 0
    ensures 0 <= x / d <= x
  {
    var q := x / d;
    assert (q + 1) * d > 0;
    assert x < (x + 1) * d;
    DivBelow(x, x + 1, d);
  }

  /** One wrapping 64-bit operation: the word and the multiple of 2^64 it drops. */
  method Wrap64(x: int) returns (w: u64, ghost dropped: int)
    ensures x == dropped * TWO_TO_THE_64 + w
  {
    w, dropped := x % TWO_TO_THE_64, x / TWO_TO_THE_64;
  }

  /** The little-endian 32-bit word at offset `i`. */
  function Le32(s: seq<byte>, i: nat): u32
    requires i + 4 <= |s|
  {
    var b0: int, b1: int, b2: int, b3: int := s[i], s[i + 1], s[i + 2], s[i + 3];
    b0 + 0x100 * b1 + 0x1_0000 * b2 + 0x100_0000 * b3
  }

  /** The little-endian 64-bit word at offset `i`. */
  function Le64(s: seq<byte>, i: nat): u64
    requires i + 8 <= |s|
  {
    Le32(s, i) + TWO_TO_THE_32 * Le32(s, i + 4)
  }

  /** The four bytes that store a 32-bit word. */
  function Bytes32(w: u32): (s: seq<byte>)
    ensures |s| == 4
  {
    [w % 0x100, w / 0x100 % 0x100, w / 0x1_0000 % 0x100, w / 0x100_0000]
  }

  /** The eight bytes that store a 64-bit word. */
  function Bytes64(w: u64): (s: seq<byte>)
    ensures |s| == 8
  {
    Bytes32(w % TWO_TO_THE_32) + Bytes32(w / TWO_TO_THE_32)
  }

  lemma Le32Bytes32(w: u32)
    ensures Le32(Bytes32(w), 0) == w
  {
    var a, b, c := w / 0x100, w / 0x1_0000, w / 0x100_0000;
    assert w == 0x100 * a + w % 0x100;
    assert a / 0x100 == b && a == 0x100 * b + a % 0x100;
    assert b / 0x100 == c && b == 0x100 * c + b % 0x100;
  }

  /** Reading back a stored 64-bit word yields that word. */
  lemma Le64Bytes64(w: u64)
    ensures Le64(Bytes64(w), 0) == w
  {
    Le32Bytes32(w % TWO_TO_THE_32);
    Le32Bytes32(w / TWO_TO_THE_32);
  }
}
