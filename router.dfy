/** Key routing of the sharded cache (the `shard` method and `intBytes` of
    sharded/lru/lru.go): a key is turned into bytes, the bytes are hashed
    with 32-bit FNV-1a, and the hash is masked with `nshards - 1`. */
module Router {

  /** An octet, as Go's `byte`. */
  newtype byte = x: int | 0 <= x < 0x100

  /** The key shapes the model routes: byte slices, strings (in Go a string
      is a sequence of bytes, hashed as `[]byte(v)`), and `int`. */
  datatype Key = Bytes(b: seq<byte>) | Str(s: seq<byte>) | Int(i: int)

  /** `strconv.IntSize / 8` on a 64-bit platform (4 on a 32-bit one). */
  const WordBytes: nat := 8

  /** 32-bit FNV-1a parameters. */
  const FnvOffset32: bv32 := 2166136261
  const FnvPrime32: bv32 := 16777619

  /** Go's `byte(x)`: the low eight bits of `x` (two's complement). */
  function LowByte(x: int): byte {
    (x % 256) as byte
  }

  /** intBytes with `il` bytes per int: byte `j` is `byte(i >> 8j)`. Go's
      `>>` on a signed int is an arithmetic shift, i.e. floor division by
      a power of two, which is what Dafny's `/` does for a positive
      divisor. */
  function IntBytes(i: int, il: nat): (b: seq<byte>)
    requires il == 4 || il == 8
    ensures |b| == il
  {
    var low := [LowByte(i), LowByte(i / 0x100), LowByte(i / 0x1_0000), LowByte(i / 0x100_0000)];
    if il == 8 then
      low + [ LowByte(i / 0x1_0000_0000), LowByte(i / 0x100_0000_0000),
              LowByte(i / 0x1_0000_0000_0000), LowByte(i / 0x100_0000_0000_0000) ]
    else low
  }

  /** The bytes a key is hashed over. */
  function KeyBytes(k: Key): seq<byte> {
    match k
    case Bytes(b) => b
    case Str(s) => s
    case Int(i) => IntBytes(i, WordBytes)
  }

  /** FNV-1a over `data` starting from state `h`: per byte, xor then
      multiply by the prime modulo 2^32. */
  function FnvFold(h: bv32, data: seq<byte>): bv32
    decreases |data|
  {
    if data == [] then h else FnvFold(FnvStep(h, data[0]), data[1..])
  }

  /** One FNV-1a round: xor in the byte, multiply by the prime mod 2^32. */
  function FnvStep(h: bv32, b: byte): bv32 {
    (h ^ (b as bv32)) * FnvPrime32
  }

  /** fnv.New32a, one Write of `data`, Sum32. */
  function Fnv1a32(data: seq<byte>): bv32 {
    FnvFold(FnvOffset32, data)
  }

  /** Bitwise AND of two naturals (Go's `&` on uint32 values). */
  function BitAnd(a: nat, b: nat): (r: nat)
    ensures r <= a && r <= b
  {
    if a == 0 || b == 0 then 0
    else 2 * BitAnd(a / 2, b / 2) + (if a % 2 == 1 && b % 2 == 1 then 1 else 0)
  }

  /** `uint32(h) & uint32(nshards - 1)`: always a valid shard position,
      and 0 when there is one shard. */
  function MaskIndex(h: nat, nshards: int): (i: nat)
    requires nshards >= 1
    ensures i < nshards
  {
    BitAnd(h % 0x1_0000_0000, (nshards - 1) % 0x1_0000_0000)
  }

  /** The position of the shard that holds `k`; a function of the key's
      bytes only, so equal keys always meet in the same shard. */
  function ShardIndex(k: Key, nshards: int): (i: nat)
    requires nshards >= 1
    ensures i < nshards
  {
    MaskIndex(Fnv1a32(KeyBytes(k)) as nat, nshards)
  }

  // ---------------------------------------------------------------------
  // intBytes is little-endian

  function Pow(base: nat, n: nat): (p: nat)
    requires base > 0
    ensures p > 0
  {
    if n == 0 then 1 else base * Pow(base, n - 1)
  }

  /** The unsigned number a little-endian byte string denotes. */
  function LittleEndian(b: seq<byte>): nat {
    if b == [] then 0 else b[0] as nat + 256 * LittleEndian(b[1..])
  }

  /** The `n` low base-256 digits of `x`, least significant first. */
  function Digits(x: int, n: nat): (d: seq<byte>)
    ensures |d| == n
    decreases n
  {
    if n == 0 then [] else [LowByte(x)] + Digits(x / 256, n - 1)
  }

  lemma MulAtLeast(m: int, d: int)
    requires m > 0 && d >= 1
    ensures m * d >= m
  {
    assert m * d == m * (d - 1) + m;
  }

  /** Euclidean division is determined by quotient and remainder. */
  lemma DivModUnique(x: int, m: int, q: int, r: int)
    requires m > 0 && 0 <= r < m && x == m * q + r
    ensures x / m == q && x % m == r
  {
    var q', r' := x / m, x % m;
    assert x == m * q' + r';
    if q' > q {
      MulAtLeast(m, q' - q);
    } else if q' < q {
      MulAtLeast(m, q - q');
    }
  }

  /** Dividing by `a` and then by `p` is dividing by `a * p`, and the
      remainder by `a * p` splits into the two digit positions. */
  lemma DivModSplit(x: int, a: int, p: int)
    requires a > 0 && p > 0
    ensures x / a / p == x / (a * p)
    ensures x % (a * p) == x % a + a * (x / a % p)
  {
    var q1, r1 := x / a, x % a;
    var q2, r2 := q1 / p, q1 % p;
    MulDistributes(a, p, q2, r2);
    MulDigitBound(a, p, r2);
    DivModUnique(x, a * p, q2, a * r2 + r1);
  }

  lemma MulDistributes(a: int, p: int, q: int, r: int)
    ensures a * (p * q + r) == (a * p) * q + a * r
  {
  }

  lemma MulNonNegative(x: int, y: int)
    requires x >= 0 && y >= 0
    ensures x * y >= 0
  {
  }

  lemma MulDigitBound(a: int, p: int, r: int)
    requires a > 0 && 0 <= r < p
    ensures 0 <= a * r <= a * p - a
  {
    MulNonNegative(a, r);
    MulNonNegative(a, p - 1 - r);
    MulDistributes(a, p - 1 - r, 1, r);
    MulDistributes(a, p, 1, -1);
  }

  /** Digit `j` of `x` is the low byte of `x / 256^j`. */
  lemma {:induction false} DigitsAt(x: int, n: nat, j: nat)
    requires j < n
    ensures Digits(x, n)[j] == LowByte(x / Pow(256, j))
    decreases n
  {
    if j > 0 {
      DigitsAt(x / 256, n - 1, j - 1);
      DivModSplit(x, 256, Pow(256, j - 1));
    }
  }

  /** The digits denote `x` modulo `256^n`. */
  lemma {:induction false} DigitsValue(x: int, n: nat)
    ensures LittleEndian(Digits(x, n)) == x % Pow(256, n)
    decreases n
  {
    if n > 0 {
      DigitsValue(x / 256, n - 1);
      DivModSplit(x, 256, Pow(256, n - 1));
      assert Digits(x, n)[1..] == Digits(x / 256, n - 1);
    }
  }

  /** intBytes writes the `il` low base-256 digits of `i`, least
      significant first: byte `j` is `(i >> 8j) & 0xff`, and read back as a
      little-endian number the bytes give `i` modulo `2^(8 il)`. */
  lemma IntBytesLittleEndian(i: int, il: nat)
    requires il == 4 || il == 8
    ensures forall j :: 0 <= j < il ==> IntBytes(i, il)[j] == LowByte(i / Pow(256, j))
    ensures LittleEndian(IntBytes(i, il)) == i % Pow(256, il)
  {
    var b := IntBytes(i, il);
    assert Pow(256, 1) == 0x100 && Pow(256, 2) == 0x1_0000 && Pow(256, 3) == 0x100_0000;
    assert Pow(256, 4) == 0x1_0000_0000 && Pow(256, 5) == 0x100_0000_0000;
    assert Pow(256, 6) == 0x1_0000_0000_0000 && Pow(256, 7) == 0x100_0000_0000_0000;
    forall j | 0 <= j < il ensures b[j] == Digits(i, il)[j] {
      DigitsAt(i, il, j);
    }
    assert b == Digits(i, il);
    DigitsValue(i, il);
  }

  // ---------------------------------------------------------------------
  // FNV-1a

  /** Hashing `a + b` is hashing `b` from the state reached after `a`: the
      hash is a left fold over the bytes, independent of how they are
      split into writes. */
  lemma {:induction false} FnvFoldAppend(h: bv32, a: seq<byte>, b: seq<byte>)
    ensures FnvFold(h, a + b) == FnvFold(FnvFold(h, a), b)
    decreases |a|
  {
    if a != [] {
      var h' := FnvStep(h, a[0]);
      assert (a + b)[0] == a[0] && (a + b)[1..] == a[1..] + b;
      assert FnvFold(h, a + b) == FnvFold(h', a[1..] + b);
      FnvFoldAppend(h', a[1..], b);
    } else {
      assert a + b == b;
    }
  }

  // ---------------------------------------------------------------------
  // The mask reaches every shard exactly when nshards is a power of two

  ghost predicate IsPowerOfTwo(n: int) {
    n == 1 || (n > 1 && n % 2 == 0 && IsPowerOfTwo(n / 2))
  }

  /** Some hash value is masked to shard position `i`. */
  ghost predicate Reached(nshards: int, i: nat)
    requires nshards >= 1
  {
    exists h: nat :: MaskIndex(h, nshards) == i
  }

  /** Every shard position receives some hash value. */
  ghost predicate ReachesEveryShard(nshards: int)
    requires nshards >= 1
  {
    forall i: nat :: i < nshards ==> Reached(nshards, i)
  }

  /** One step of the bitwise AND, valid for zero operands too. */
  lemma BitAndStep(a: nat, b: nat)
    ensures BitAnd(a, b) == 2 * BitAnd(a / 2, b / 2) + (if a % 2 == 1 && b % 2 == 1 then 1 else 0)
  {
  }

  /** Masking with `2^t - 1` keeps the low `t` bits. */
  lemma {:induction false} BitAndLowMask(x: nat, t: nat)
    ensures BitAnd(x, Pow(2, t) - 1) == x % Pow(2, t)
  {
    if t > 0 {
      var p := Pow(2, t - 1);
      BitAndLowMask(x / 2, t - 1);
      BitAndStep(x, Pow(2, t) - 1);
      assert (Pow(2, t) - 1) / 2 == p - 1 && (Pow(2, t) - 1) % 2 == 1;
      DivModSplit(x, 2, p);
    }
  }

  /** The low `t` bits of an AND are the AND of the low `t` bits. */
  lemma {:induction false} BitAndLowBits(a: nat, b: nat, t: nat)
    ensures BitAnd(a, b) % Pow(2, t) == BitAnd(a % Pow(2, t), b % Pow(2, t))
  {
    if t > 0 {
      var p := Pow(2, t - 1);
      BitAndLowBits(a / 2, b / 2, t - 1);
      BitAndStep(a, b);
      BitAndStep(a % Pow(2, t), b % Pow(2, t));
      DivModSplit(a, 2, p);
      DivModSplit(b, 2, p);
      var c := BitAnd(a / 2, b / 2);
      DivModSplit(2 * c + (if a % 2 == 1 && b % 2 == 1 then 1 else 0), 2, p);
      DivModUnique(a % Pow(2, t), 2, a / 2 % p, a % 2);
      DivModUnique(b % Pow(2, t), 2, b / 2 % p, b % 2);
      DivModUnique(2 * c + (if a % 2 == 1 && b % 2 == 1 then 1 else 0), 2, c,
                   if a % 2 == 1 && b % 2 == 1 then 1 else 0);
    }
  }

  /** A power of two is `2^t` for some `t`. */
  lemma {:induction false} PowerOfTwoExponent(n: int) returns (t: nat)
    requires IsPowerOfTwo(n)
    ensures n == Pow(2, t)
    decreases if n > 0 then n else 0
  {
    if n == 1 {
      t := 0;
    } else {
      var t' := PowerOfTwoExponent(n / 2);
      t := t' + 1;
    }
  }

  /** `2^t` is a power of two. */
  lemma {:induction false} PowIsPowerOfTwo(t: nat)
    ensures IsPowerOfTwo(Pow(2, t))
  {
    if t > 0 {
      PowIsPowerOfTwo(t - 1);
      assert Pow(2, t) / 2 == Pow(2, t - 1);
    }
  }

  /** The largest power of two not above `m`. */
  lemma {:induction false} TopBit(m: nat) returns (t: nat)
    requires m >= 1
    ensures Pow(2, t) <= m < Pow(2, t + 1)
  {
    if m == 1 {
      t := 0;
    } else {
      var t' := TopBit(m / 2);
      t := t' + 1;
    }
  }

  /** With `nshards` a power of two, each position `i` is the mask of the
      hash value `i`. */
  lemma PowerOfTwoReachesAll(nshards: int)
    requires 1 <= nshards <= 0x1_0000_0000 && IsPowerOfTwo(nshards)
    ensures ReachesEveryShard(nshards)
  {
    var t := PowerOfTwoExponent(nshards);
    forall i: nat | i < nshards ensures Reached(nshards, i) {
      MaskOfPosition(i, nshards, t);
    }
  }

  /** A hash value below a power-of-two `nshards` masks to itself. */
  lemma MaskOfPosition(i: nat, nshards: int, t: nat)
    requires 1 <= nshards <= 0x1_0000_0000 && nshards == Pow(2, t) && i < nshards
    ensures MaskIndex(i, nshards) == i
  {
    BitAndLowMask(i, t);
    DivModUnique(i, Pow(2, t), 0, i);
    DivModUnique(i, 0x1_0000_0000, 0, i);
    DivModUnique(nshards - 1, 0x1_0000_0000, 0, nshards - 1);
  }

  /** If `2^t <= m < 2^(t+1)` and some `x & m` has all of its low `t` bits
      set (and no others), then so has `m`: `m == 2^(t+1) - 1`. */
  lemma MaskHitsTopPosition(x: nat, m: nat, t: nat)
    requires Pow(2, t) <= m < Pow(2, t + 1)
    ensures BitAnd(x, m) == Pow(2, t) - 1 ==> m == Pow(2, t + 1) - 1
  {
    var p := Pow(2, t);
    BitAndLowBits(x, m, t);
    DivModUnique(m, p, 1, m - p);
    DivModUnique(p - 1, p, 0, p - 1);
  }

  /** With `nshards` not a power of two, position `2^t - 1` (where `2^t` is
      the top bit of `nshards - 1`) is never chosen: `nshards - 1` lacks one
      of the bits below `t`, and so does every masked hash. */
  lemma NonPowerOfTwoMissesAShard(nshards: int) returns (i: nat)
    requires 1 <= nshards <= 0x1_0000_0000 && !IsPowerOfTwo(nshards)
    ensures i < nshards
    ensures forall h: nat :: MaskIndex(h, nshards) != i
  {
    var m := nshards - 1;
    var t := TopBit(m);
    i := Pow(2, t) - 1;
    PowIsPowerOfTwo(t + 1);
    assert m != Pow(2, t + 1) - 1;
    forall h: nat ensures MaskIndex(h, nshards) != i {
      MaskHitsTopPosition(h % 0x1_0000_0000, m, t);
    }
  }

  /** The mask reaches every shard if and only if `nshards` is a power of
      two (for every shard count the uint32 mask can represent). */
  lemma MaskCoverage(nshards: int)
    requires 1 <= nshards <= 0x1_0000_0000
    ensures ReachesEveryShard(nshards) <==> IsPowerOfTwo(nshards)
  {
    if IsPowerOfTwo(nshards) {
      PowerOfTwoReachesAll(nshards);
    } else {
      var i := NonPowerOfTwoMissesAShard(nshards);
      assert !Reached(nshards, i);
    }
  }
}
