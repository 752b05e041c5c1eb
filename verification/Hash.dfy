/**
 hash.h: the multiplicative hashes `hash_32` and `hash_64`, the chunked string hash `hash_str`
 behind `hash32_str`/`hash64_str`, and the unrolled `hash_time33`.
 */
module Hash {
  import opened Words

  const GOLDEN_RATIO_PRIME_32: int := 0x9e37_0001
  const GOLDEN_RATIO_PRIME_64: int := 0x9e37_ffff_fffc_0001

  // The inverses of the two multipliers modulo 2^32 and 2^64.
  const INVERSE_32: int := 1640562689
  const INVERSE_64: int := 7063896084250361857

  // ---------------------------------------------------------------- multiplication

  function Mul32(x: u32): u32 {
    (x * GOLDEN_RATIO_PRIME_32) % TWO_TO_THE_32
  }

  function Mul64(x: u64): u64 {
    (x * GOLDEN_RATIO_PRIME_64) % TWO_TO_THE_64
  }

  /** Multiplying by an inverse modulo `m` undoes a multiplication modulo `m`. */
  lemma MultiplierUndone(x: int, p: int, inverse: int, m: int, k: int)
    requires 0 <= x < m && p * inverse == k * m + 1
    ensures (x * p % m) * inverse % m == x
  {
    var q := x * p / m;
    calc {
      (x * p % m) * inverse;
      (x * p - q * m) * inverse;
      x * (p * inverse) - (q * inverse) * m;
      x * (k * m + 1) - (q * inverse) * m;
      (x * k - q * inverse) * m + x;
    }
    DivModUnique((x * p % m) * inverse, m, x * k - q * inverse, x);
  }

  /** Multiplying by the inverse recovers the operand: the 32-bit multiplier loses nothing. */
  lemma Mul32Undone(x: u32)
    ensures Mul32(x) * INVERSE_32 % TWO_TO_THE_32 == x
  {
    MultiplierUndone(x, GOLDEN_RATIO_PRIME_32, INVERSE_32, TWO_TO_THE_32,
                     GOLDEN_RATIO_PRIME_32 * INVERSE_32 / TWO_TO_THE_32);
  }

  lemma Mul64Undone(x: u64)
    ensures Mul64(x) * INVERSE_64 % TWO_TO_THE_64 == x
  {
    MultiplierUndone(x, GOLDEN_RATIO_PRIME_64, INVERSE_64, TWO_TO_THE_64,
                     GOLDEN_RATIO_PRIME_64 * INVERSE_64 / TWO_TO_THE_64);
  }

  /** Both multipliers are injective on their words. */
  lemma MultipliersInjective(x: u32, y: u32, v: u64, w: u64)
    ensures Mul32(x) == Mul32(y) <==> x == y
    ensures Mul64(v) == Mul64(w) <==> v == w
  {
    Mul32Undone(x);
    Mul32Undone(y);
    Mul64Undone(v);
    Mul64Undone(w);
  }

  /** The operand may be reduced before or after the 32-bit multiplication. */
  lemma Mul32OfResidue(x: nat)
    ensures Mul32(x % TWO_TO_THE_32) == x * GOLDEN_RATIO_PRIME_32 % TWO_TO_THE_32
  {
    var q, r := x / TWO_TO_THE_32, x % TWO_TO_THE_32;
    DivModUnique(x * GOLDEN_RATIO_PRIME_32, TWO_TO_THE_32,
                 q * GOLDEN_RATIO_PRIME_32 + r * GOLDEN_RATIO_PRIME_32 / TWO_TO_THE_32, Mul32(r));
  }

  // ---------------------------------------------------------------- hash_32 and hash_64

  /** `hash_32`: the top `bits` bits of the product. */
  function Hash32(val: u32, bits: nat): u32
    requires 1 <= bits <= 32
  {
    ShiftRight(Mul32(val), 32 - bits)
  }

  /** `hash_64` as the fast-multiplier branch computes it. */
  function Hash64(val: u64, bits: nat): u64
    requires 1 <= bits <= 64
  {
    ShiftRight(Mul64(val), 64 - bits)
  }

  /** `hash_64` as the shift-and-add branch computes it; every word operation wraps. */
  method Hash64ShiftAdd(val: u64, bits: nat) returns (result: u64)
    requires 1 <= bits <= 64
    ensures result == Hash64(val, bits)
  {
    var n: u64, hash: u64 := val, val;
    ghost var q, kn, kh := 0, 0, 0;  // the multiples of 2^64 dropped so far from n and from hash
    n, q := Wrap64(n * 0x4_0000);
    kn := 0x4_0000 * kn + q;
    hash, q := Wrap64(hash - n);
    kh := kh - kn + q;
    n, q := Wrap64(n * 0x2_0000_0000);
    kn := 0x2_0000_0000 * kn + q;
    hash, q := Wrap64(hash - n);
    kh := kh - kn + q;
    n, q := Wrap64(n * 8);
    kn := 8 * kn + q;
    hash, q := Wrap64(hash + n);
    kh := kh + kn + q;
    n, q := Wrap64(n * 8);
    kn := 8 * kn + q;
    hash, q := Wrap64(hash - n);
    kh := kh - kn + q;
    n, q := Wrap64(n * 16);
    kn := 16 * kn + q;
    hash, q := Wrap64(hash + n);
    kh := kh + kn + q;
    n, q := Wrap64(n * 4);
    kn := 4 * kn + q;
    hash, q := Wrap64(hash + n);
    kh := kh + kn + q;
    DivModUnique(val * GOLDEN_RATIO_PRIME_64, TWO_TO_THE_64, kh, hash);
    return ShiftRight(hash, 64 - bits);
  }

  lemma ShiftedBelow(x: nat, width: nat, bits: nat)
    requires bits <= width && x < Pow2(width)
    ensures ShiftRight(x, width - bits) < Pow2(bits)
  {
    Pow2Add(bits, width - bits);
    DivBelow(x, Pow2(bits), Pow2(width - bits));
  }

  /** A hash asked for `bits` bits fits in them, and the full-width hashes are injective. */
  lemma HashRange(val: u32, wide: u64, bits: nat)
    requires 1 <= bits <= 64
    ensures bits <= 32 ==> Hash32(val, bits) < Pow2(bits)
    ensures Hash64(wide, bits) < Pow2(bits)
    ensures Hash32(val, 32) == Mul32(val) && Hash64(wide, 64) == Mul64(wide)
  {
    Pow2Values();
    ShiftedBelow(Mul64(wide), 64, bits);
    if bits <= 32 {
      ShiftedBelow(Mul32(val), 32, bits);
    }
  }

  lemma ShiftedPart(x: nat, k: nat)
    ensures var h := ShiftRight(x, k); h * Pow2(k) <= x < (h + 1) * Pow2(k)
  {
    assert x == x / Pow2(k) * Pow2(k) + x % Pow2(k);
  }

  /** The hash of `bits` bits is the top of the product, as a number: what is below it is cut off. */
  lemma HashTopBits(val: u32, wide: u64, bits: nat)
    requires 1 <= bits <= 64
    ensures bits <= 32 ==>
              var h, product := Hash32(val, bits), val * 0x9e37_0001 % 0x1_0000_0000;
              h * Pow2(32 - bits) <= product < (h + 1) * Pow2(32 - bits)
    ensures var h, product := Hash64(wide, bits), wide * 0x9e37_ffff_fffc_0001 % 0x1_0000_0000_0000_0000;
            h * Pow2(64 - bits) <= product < (h + 1) * Pow2(64 - bits)
  {
    ShiftedPart(Mul64(wide), 64 - bits);
    if bits <= 32 {
      ShiftedPart(Mul32(val), 32 - bits);
    }
  }

  // ---------------------------------------------------------------- hash_str

  /** The sum of the values `hash_str` reads: 8-byte words, then a 4-byte word, then single bytes. */
  function ChunkSum(str: seq<byte>): nat {
    if |str| >= 8 then (Le64(str, 0) as nat) + ChunkSum(str[8..])
    else if |str| >= 4 then (Le32(str, 0) as nat) + ChunkSum(str[4..])
    else if |str| >= 1 then (str[0] as nat) + ChunkSum(str[1..])
    else 0
  }

  /** What `hash_str` returns for a string and a width. */
  function HashStrValue(str: seq<byte>, bits: nat): u64
    requires 1 <= bits <= 64
  {
    var hash: u64 := ChunkSum(str) % TWO_TO_THE_64;
    if bits <= 32 then Hash32(hash % TWO_TO_THE_32, bits) else Hash64(hash, bits)
  }

  function Hash32Str(str: seq<byte>): u32 {
    HashStrValue(str, 32)
  }

  function Hash64Str(str: seq<byte>): u64 {
    HashStrValue(str, 64)
  }

  /** What a loop that runs while a signed `len` is positive sees of the memory at `s`. */
  function Taken<T>(s: seq<T>, len: int): (r: seq<T>)
    requires len <= |s|
    ensures len == |s| ==> r == s
  {
    if len <= 0 then [] else s[..len]
  }

  /** `hash_str`: one pass over `length` bytes, each consumed by exactly one read; none for a negative length. */
  method HashStr(memory: seq<byte>, length: int, bits: nat) returns (result: u64)
    requires length <= |memory| && 1 <= bits <= 64
    ensures result == HashStrValue(Taken(memory, length), bits)
  {
    var hash: u64 := 0;
    var at, len := 0, length;
    ghost var dropped := 0;
    ghost var str := Taken(memory, length);
    while len > 0
      invariant 0 <= at <= |str| && len == length - at && (length > 0 ==> |str| == length)
      invariant dropped * TWO_TO_THE_64 + hash + ChunkSum(str[at..]) == ChunkSum(str)
    {
      ghost var rest, q := str[at..], 0;
      var value: u64;
      if len >= 8 {
        value := Le64(memory, at);
        assert rest[8..] == str[at + 8..] && value == Le64(rest, 0);
        at, len := at + 8, len - 8;
      } else if len >= 4 {
        value := Le32(memory, at);
        assert rest[4..] == str[at + 4..] && value == Le32(rest, 0);
        at, len := at + 4, len - 4;
      } else {
        value := memory[at];
        assert rest[1..] == str[at + 1..];
        at, len := at + 1, len - 1;
      }
      assert ChunkSum(rest) == value + ChunkSum(str[at..]);
      hash, q := Wrap64(hash + value);
      dropped := dropped + q;
    }
    assert str[at..] == [];
    DivModUnique(ChunkSum(str), TWO_TO_THE_64, dropped, hash);
    if bits <= 32 {
      return Hash32(hash % TWO_TO_THE_32, bits);
    } else {
      result := Hash64ShiftAdd(hash, bits);
    }
  }

  // Positional form: what each byte contributes, from the length and its index alone.

  /** The bytes of the string that `hash_str` reads in 8-byte words. */
  function WordPart(len: nat): nat {
    len / 8 * 8
  }

  /** The weight of byte `i` in the low 32-bit half of the sum. */
  function LowWeight(len: nat, i: nat): nat {
    var k := if i < WordPart(len) then i % 8 else if 4 <= len % 8 && i < WordPart(len) + 4 then i % 8 else 0;
    if k == 0 then 1 else if k == 1 then 0x100 else if k == 2 then 0x1_0000 else if k == 3 then 0x100_0000 else 0
  }

  /** The weight of byte `i` in the upper half of the sum, counted in units of 2^32. */
  function HighWeight(len: nat, i: nat): nat {
    if i >= WordPart(len) then 0
    else if i % 8 == 4 then 1 else if i % 8 == 5 then 0x100 else if i % 8 == 6 then 0x1_0000
    else if i % 8 == 7 then 0x100_0000 else 0
  }

  function LowSum(str: seq<byte>, from: nat := 0): nat
    decreases |str| - from
  {
    if from >= |str| then 0 else (str[from] as nat) * LowWeight(|str|, from) + LowSum(str, from + 1)
  }

  function HighSum(str: seq<byte>, from: nat := 0): nat
    decreases |str| - from
  {
    if from >= |str| then 0 else (str[from] as nat) * HighWeight(|str|, from) + HighSum(str, from + 1)
  }

  lemma WeightsShift(len: nat, n: nat, i: nat)
    requires (n == 8 <= len) || (n == 4 <= len < 8) || (n == 1 <= len < 4)
    ensures LowWeight(len, i + n) == LowWeight(len - n, i) && HighWeight(len, i + n) == HighWeight(len - n, i)
  {
    if n == 8 {
      assert WordPart(len) == WordPart(len - 8) + 8;
      assert (i + 8) % 8 == i % 8 && len % 8 == (len - 8) % 8;
    } else {
      assert WordPart(len) == WordPart(len - n) == 0;
    }
  }

  lemma {:induction false} SumsShift(str: seq<byte>, n: nat, from: nat)
    requires (n == 8 <= |str|) || (n == 4 <= |str| < 8) || (n == 1 <= |str| < 4)
    ensures LowSum(str, from + n) == LowSum(str[n..], from)
    ensures HighSum(str, from + n) == HighSum(str[n..], from)
    decreases |str| - from
  {
    if from + n < |str| {
      WeightsShift(|str|, n, from);
      SumsShift(str, n, from + 1);
    }
  }

  lemma UnrollLow(str: seq<byte>, i: nat)
    requires i + 4 <= |str|
    ensures LowSum(str, i) == (str[i] as nat) * LowWeight(|str|, i) + (str[i + 1] as nat) * LowWeight(|str|, i + 1)
                              + (str[i + 2] as nat) * LowWeight(|str|, i + 2)
                              + (str[i + 3] as nat) * LowWeight(|str|, i + 3) + LowSum(str, i + 4)
  {
    assert LowSum(str, i + 1) == (str[i + 1] as nat) * LowWeight(|str|, i + 1) + LowSum(str, i + 2);
    assert LowSum(str, i + 3) == (str[i + 3] as nat) * LowWeight(|str|, i + 3) + LowSum(str, i + 4);
  }

  lemma UnrollHigh(str: seq<byte>, i: nat)
    requires i + 4 <= |str|
    ensures HighSum(str, i) == (str[i] as nat) * HighWeight(|str|, i) + (str[i + 1] as nat) * HighWeight(|str|, i + 1)
                               + (str[i + 2] as nat) * HighWeight(|str|, i + 2)
                               + (str[i + 3] as nat) * HighWeight(|str|, i + 3) + HighSum(str, i + 4)
  {
    assert HighSum(str, i + 1) == (str[i + 1] as nat) * HighWeight(|str|, i + 1) + HighSum(str, i + 2);
    assert HighSum(str, i + 3) == (str[i + 3] as nat) * HighWeight(|str|, i + 3) + HighSum(str, i + 4);
  }

  lemma WordWeights(len: nat)
    requires len >= 8
    ensures LowWeight(len, 0) == HighWeight(len, 4) == 1 && LowWeight(len, 1) == HighWeight(len, 5) == 0x100
    ensures LowWeight(len, 2) == HighWeight(len, 6) == 0x1_0000
    ensures LowWeight(len, 3) == HighWeight(len, 7) == 0x100_0000
    ensures forall i :: 0 <= i < 4 ==> LowWeight(len, i + 4) == HighWeight(len, i) == 0
  {
    assert WordPart(len) >= 8;
  }

  lemma LowHalf(str: seq<byte>)
    requires |str| >= 8
    ensures LowSum(str) == Le32(str, 0) + LowSum(str, 8)
  {
    WordWeights(|str|);
    UnrollLow(str, 0);
    assert LowSum(str, 4) == LowSum(str, 8) by {
      UnrollLow(str, 4);
    }
  }

  lemma HighHalf(str: seq<byte>)
    requires |str| >= 8
    ensures HighSum(str) == Le32(str, 4) + HighSum(str, 8)
  {
    WordWeights(|str|);
    UnrollHigh(str, 4);
    assert HighSum(str) == HighSum(str, 4) by {
      UnrollHigh(str, 0);
    }
  }

  lemma WordRead(str: seq<byte>)
    requires |str| >= 8
    ensures LowSum(str) + TWO_TO_THE_32 * HighSum(str) ==
            Le64(str, 0) + LowSum(str[8..]) + TWO_TO_THE_32 * HighSum(str[8..])
  {
    SumsShift(str, 8, 0);
    LowHalf(str);
    HighHalf(str);
  }

  lemma HalfWordRead(str: seq<byte>)
    requires 4 <= |str| < 8
    ensures LowSum(str) + TWO_TO_THE_32 * HighSum(str) ==
            Le32(str, 0) + LowSum(str[4..]) + TWO_TO_THE_32 * HighSum(str[4..])
  {
    SumsShift(str, 4, 0);
    UnrollLow(str, 0);
    UnrollHigh(str, 0);
  }

  /** The sum of the reads, byte by byte: each byte counts once, with a weight fixed by its position. */
  lemma {:induction false} ChunkSumPositional(str: seq<byte>)
    ensures ChunkSum(str) == LowSum(str) + TWO_TO_THE_32 * HighSum(str)
    decreases |str|
  {
    if |str| >= 8 {
      ChunkSumPositional(str[8..]);
      WordRead(str);
    } else if |str| >= 4 {
      ChunkSumPositional(str[4..]);
      HalfWordRead(str);
    } else if |str| >= 1 {
      ChunkSumPositional(str[1..]);
      SumsShift(str, 1, 0);
    }
  }

  /** Closed form of `hash32_str`: only the low halves of the 8-byte words reach it. */
  lemma Hash32StrClosedForm(str: seq<byte>)
    ensures Hash32Str(str) == GOLDEN_RATIO_PRIME_32 * LowSum(str) % TWO_TO_THE_32
  {
    SumTruncated(str);
    Mul32OfResidue(LowSum(str));
    hide ChunkSum, LowSum;
    assert Pow2(0) == 1;
  }

  /** Closed form of `hash64_str`: the whole sum of the reads reaches it. */
  lemma Hash64StrClosedForm(str: seq<byte>)
    ensures Hash64Str(str) == 0x9e37_ffff_fffc_0001 * (LowSum(str) + TWO_TO_THE_32 * HighSum(str)) % TWO_TO_THE_64
  {
    ChunkSumPositional(str);
    Mul64OfResidue(ChunkSum(str));
    hide ChunkSum, LowSum, HighSum;
    assert Pow2(0) == 1;
  }

  /** `hash_str` of any width: the top bits of the product with the sum, or with its lower half up to 32 bits. */
  lemma HashStrTopBits(str: seq<byte>, bits: nat)
    requires 1 <= bits <= 64
    ensures var h, low := HashStrValue(str, bits), LowSum(str) * 0x9e37_0001 % TWO_TO_THE_32;
            bits <= 32 ==> h * Pow2(32 - bits) <= low < (h + 1) * Pow2(32 - bits)
    ensures var h, sum := HashStrValue(str, bits), LowSum(str) + TWO_TO_THE_32 * HighSum(str);
            bits > 32 ==>
              var product := sum * 0x9e37_ffff_fffc_0001 % TWO_TO_THE_64;
              h * Pow2(64 - bits) <= product < (h + 1) * Pow2(64 - bits)
  {
    var sum := ChunkSum(str);
    if bits <= 32 {
      SumTruncated(str);
      Mul32OfResidue(LowSum(str));
      ShiftedPart(Mul32(sum % TWO_TO_THE_64 % TWO_TO_THE_32), 32 - bits);
    } else {
      ChunkSumPositional(str);
      Mul64OfResidue(sum);
      ShiftedPart(Mul64(sum % TWO_TO_THE_64), 64 - bits);
    }
  }

  lemma SumTruncated(str: seq<byte>)
    ensures ChunkSum(str) % TWO_TO_THE_64 % TWO_TO_THE_32 == LowSum(str) % TWO_TO_THE_32
  {
    ChunkSumPositional(str);
    var low, sum := LowSum(str), ChunkSum(str);
    ModOfMod(sum, TWO_TO_THE_32, TWO_TO_THE_32);
    DivModUnique(sum, TWO_TO_THE_32, low / TWO_TO_THE_32 + HighSum(str), low % TWO_TO_THE_32);
  }

  lemma Mul64OfResidue(x: nat)
    ensures Mul64(x % TWO_TO_THE_64) == x * GOLDEN_RATIO_PRIME_64 % TWO_TO_THE_64
  {
    var q, r := x / TWO_TO_THE_64, x % TWO_TO_THE_64;
    DivModUnique(x * GOLDEN_RATIO_PRIME_64, TWO_TO_THE_64,
                 q * GOLDEN_RATIO_PRIME_64 + r * GOLDEN_RATIO_PRIME_64 / TWO_TO_THE_64, Mul64(r));
  }

  /** Two strings share a `hash32_str` value exactly when their low sums agree modulo 2^32. */
  lemma Hash32StrCollision(s: seq<byte>, t: seq<byte>)
    ensures Hash32Str(s) == Hash32Str(t) <==> LowSum(s) % TWO_TO_THE_32 == LowSum(t) % TWO_TO_THE_32
  {
    Hash32StrClosedForm(s);
    Hash32StrClosedForm(t);
    Mul32OfResidue(LowSum(s));
    Mul32OfResidue(LowSum(t));
    Mul32Undone(LowSum(s) % TWO_TO_THE_32);
    Mul32Undone(LowSum(t) % TWO_TO_THE_32);
  }

  /** Two strings share a `hash64_str` value exactly when their word sums agree modulo 2^64. */
  lemma Hash64StrCollision(s: seq<byte>, t: seq<byte>)
    ensures Hash64Str(s) == Hash64Str(t) <==> ChunkSum(s) % TWO_TO_THE_64 == ChunkSum(t) % TWO_TO_THE_64
  {
    Pow2Values();
    Mul64Undone(ChunkSum(s) % TWO_TO_THE_64);
    Mul64Undone(ChunkSum(t) % TWO_TO_THE_64);
  }

  lemma {:induction false} LowSumUpdate(str: seq<byte>, i: nat, b: byte, from: nat)
    requires i < |str|
    ensures LowSum(str[i := b], from) ==
            LowSum(str, from) + (if from <= i then ((b as int) - str[i]) * LowWeight(|str|, i) else 0)
    decreases |str| - from
  {
    if from < |str| {
      LowSumUpdate(str, i, b, from + 1);
      if from == i {
        assert (b as int) * LowWeight(|str|, i) ==
               (str[i] as int) * LowWeight(|str|, i) + ((b as int) - str[i]) * LowWeight(|str|, i);
      }
    }
  }

  /** Bytes 4..7 of every full 8-byte word never influence `hash32_str`. */
  lemma HighHalfIgnored(str: seq<byte>, i: nat, b: byte)
    requires i < WordPart(|str|) && i % 8 >= 4
    ensures WordPart(|str|) <= |str| && Hash32Str(str[i := b]) == Hash32Str(str)
  {
    assert LowWeight(|str|, i) == 0;
    LowSumUpdate(str, i, b, 0);
    Hash32StrCollision(str, str[i := b]);
  }

  // ---------------------------------------------------------------- hash_time33

  /** A `char` of either signedness. */
  type cchar = x: int | -0x80 <= x < 0x100

  /** One `hash = ((hash << 5) + hash) + c` in 32-bit wrap-around arithmetic. */
  function Time33Step(hash: u32, c: cchar): u32 {
    (hash * 32 % TWO_TO_THE_32 + hash + c) % TWO_TO_THE_32
  }

  /** The simple fold over the first `n` characters, from 5381. */
  function Time33Fold(str: seq<cchar>, n: nat): u32
    requires n <= |str|
  {
    if n == 0 then 5381 else Time33Step(Time33Fold(str, n - 1), str[n - 1])
  }

  /** The repeated line of `hash_time33`: one step, and the pointer moves on. */
  method Time33Next(str: seq<cchar>, hash: u32, at: nat) returns (hash': u32, at': nat)
    requires at < |str| && hash == Time33Fold(str, at)
    ensures at' == at + 1 && hash' == Time33Fold(str, at')
  {
    hash', at' := Time33Step(hash, str[at]), at + 1;
  }

  /** `hash_time33`: eight steps a turn, then a switch that falls through the remaining ones; 5381 for no length. */
  method HashTime33(str: seq<cchar>, length: int) returns (result: i32)
    requires length <= |str|
    ensures result == ToInt32(Time33Fold(str, if length <= 0 then 0 else length))
  {
    var hash: u32 := 5381;
    var at, len := 0, length;
    while len >= 8
      invariant 0 <= at && len == length - at && (length >= 0 ==> len >= 0) && (length < 0 ==> at == 0)
      invariant hash == Time33Fold(str, at)
    {
      hash, at := Time33Next(str, hash, at);
      hash, at := Time33Next(str, hash, at);
      hash, at := Time33Next(str, hash, at);
      hash, at := Time33Next(str, hash, at);
      hash, at := Time33Next(str, hash, at);
      hash, at := Time33Next(str, hash, at);
      hash, at := Time33Next(str, hash, at);
      hash, at := Time33Next(str, hash, at);
      len := len - 8;
    }
    if len >= 7 { hash, at := Time33Next(str, hash, at); }
    if len >= 6 { hash, at := Time33Next(str, hash, at); }
    if len >= 5 { hash, at := Time33Next(str, hash, at); }
    if len >= 4 { hash, at := Time33Next(str, hash, at); }
    if len >= 3 { hash, at := Time33Next(str, hash, at); }
    if len >= 2 { hash, at := Time33Next(str, hash, at); }
    if len >= 1 { hash, at := Time33Next(str, hash, at); }
    return ToInt32(hash);
  }

  function Pow33(k: nat): nat {
    if k == 0 then 1 else 33 * Pow33(k - 1)
  }

  /** The sum of `str[i] * 33^(n-1-i)` for `lo <= i < n`. */
  function Time33Poly(str: seq<cchar>, lo: nat, n: nat): int
    requires lo <= n <= |str|
    decreases n - lo
  {
    if lo == n then 0 else str[lo] * Pow33(n - 1 - lo) + Time33Poly(str, lo + 1, n)
  }

  lemma {:induction false} Time33PolySnoc(str: seq<cchar>, lo: nat, n: nat)
    requires lo <= n < |str|
    ensures Time33Poly(str, lo, n + 1) == 33 * Time33Poly(str, lo, n) + str[n]
    decreases n - lo
  {
    if lo < n {
      Time33PolySnoc(str, lo + 1, n);
      var c, p := str[lo], Pow33(n - 1 - lo);
      assert c * Pow33(n - lo) == 33 * (c * p);
    }
  }

  /** One step multiplies by 33 and adds, up to multiples of 2^32. */
  lemma Time33StepResidue(hash: u32, c: cchar, exact: int)
    requires hash == exact % TWO_TO_THE_32
    ensures Time33Step(hash, c) == (33 * exact + c) % TWO_TO_THE_32
  {
    var shifted := hash * 32 / TWO_TO_THE_32;
    var total := hash * 32 % TWO_TO_THE_32 + hash + c;
    var q := exact / TWO_TO_THE_32;
    DivModUnique(33 * exact + c, TWO_TO_THE_32, 33 * q + shifted + total / TWO_TO_THE_32, total % TWO_TO_THE_32);
  }

  /** Closed form: 5381 * 33^n plus the characters' powers of 33, modulo 2^32. */
  lemma {:induction false} Time33ClosedForm(str: seq<cchar>, n: nat)
    requires n <= |str|
    ensures Time33Fold(str, n) == (5381 * Pow33(n) + Time33Poly(str, 0, n)) % TWO_TO_THE_32
  {
    if n > 0 {
      Time33ClosedForm(str, n - 1);
      Time33PolySnoc(str, 0, n - 1);
      Time33StepResidue(Time33Fold(str, n - 1), str[n - 1], 5381 * Pow33(n - 1) + Time33Poly(str, 0, n - 1));
    }
  }
}
