/** Shared vocabulary of the engine model: optional and fallible results,
    machine-word wrap-around, powers of two, decimal rendering of unsigned
    integers (std::to_string) and the length of a NUL-terminated string
    (strlen). Strings of the engine are byte strings; the model writes them
    as Dafny strings whose characters stand for those bytes. */
module Base {

  datatype Option<+T> = None | Some(value: T)

  datatype Result<+T, +E> = Success(value: T) | Failure(error: E)

  /** An unsigned 8-bit value (u8). */
  newtype byte = x: int | 0 <= x < 256

  const U32_MODULUS: nat := 0x1_0000_0000
  const U64_MODULUS: nat := 0x1_0000_0000_0000_0000

  /** An integer reduced to an unsigned 32-bit value (a u32 cast or a u32
      subtraction that wraps). */
  function U32(x: int): (r: nat)
    ensures r < U32_MODULUS
    ensures 0 <= x < U32_MODULUS ==> r == x
  {
    x % 0x1_0000_0000
  }

  /** An integer reduced to an unsigned 64-bit value (usize arithmetic). */
  function U64(x: int): (r: nat)
    ensures r < U64_MODULUS
    ensures 0 <= x < U64_MODULUS ==> r == x
  {
    x % 0x1_0000_0000_0000_0000
  }

  /** An integer reduced to a signed 32-bit value (a u32 stored in an int
      variable): two's complement wrap-around. */
  function S32(x: int): (r: int)
    ensures -0x8000_0000 <= r < 0x8000_0000
    ensures r % U32_MODULUS == x % U32_MODULUS
  {
    if U32(x) < 0x8000_0000 then U32(x) else U32(x) - U32_MODULUS
  }

  function Min(a: nat, b: nat): nat
  {
    if a <= b then a else b
  }

  // ---------------------------------------------------------------------
  // Powers of two

  function Pow2(k: nat): (r: nat)
    ensures r >= 1
  {
    if k == 0 then 1 else 2 * Pow2(k - 1)
  }

  predicate IsPowerOfTwo(n: nat)
    decreases n
  {
    n == 1 || (n >= 2 && n % 2 == 0 && IsPowerOfTwo(n / 2))
  }

  lemma {:induction false} Pow2IsPowerOfTwo(k: nat)
    ensures IsPowerOfTwo(Pow2(k))
  {
    if k > 0 {
      Pow2IsPowerOfTwo(k - 1);
      assert Pow2(k) / 2 == Pow2(k - 1);
    }
  }

  lemma {:induction false} Pow2Monotone(j: nat, k: nat)
    requires j <= k
    ensures Pow2(j) <= Pow2(k)
  {
    if j < k {
      Pow2Monotone(j, k - 1);
    }
  }

  /** Every power of two is 2^k for some k: the predicate and Pow2 agree. */
  lemma {:induction false} PowerOfTwoIsPow2(n: nat) returns (k: nat)
    requires IsPowerOfTwo(n)
    ensures Pow2(k) == n
    decreases n
  {
    if n == 1 {
      k := 0;
    } else {
      var j := PowerOfTwoIsPow2(n / 2);
      k := j + 1;
    }
  }

  lemma Pow2Add8(k: nat)
    ensures Pow2(k + 8) == 256 * Pow2(k)
  {
    assert Pow2(k + 2) == 4 * Pow2(k);
    assert Pow2(k + 4) == 4 * Pow2(k + 2);
    assert Pow2(k + 6) == 4 * Pow2(k + 4);
    assert Pow2(k + 8) == 4 * Pow2(k + 6);
  }

  lemma Pow2Is32()
    ensures Pow2(31) == 0x8000_0000 && Pow2(32) == U32_MODULUS
  {
    Pow2Add8(0); Pow2Add8(8); Pow2Add8(16); Pow2Add8(23); Pow2Add8(24);
  }

  lemma Pow2Is64()
    ensures Pow2(64) == U64_MODULUS
  {
    Pow2Is32();
    Pow2Add8(32); Pow2Add8(40); Pow2Add8(48); Pow2Add8(56);
  }

  // ---------------------------------------------------------------------
  // Little-endian integers

  /** The unsigned value of bytes stored least significant first, as a
      memcpy or fread into a zeroed integer leaves it on a little-endian
      machine. */
  function LittleEndian(s: seq<byte>): nat
  {
    if s == [] then 0 else s[0] as nat + 256 * LittleEndian(s[1..])
  }

  /** n little-endian bytes make a value below 2^(8n). */
  lemma {:induction false} LittleEndianBound(s: seq<byte>)
    ensures LittleEndian(s) < Pow2(8 * |s|)
  {
    if s != [] {
      LittleEndianBound(s[1..]);
      Pow2Add8(8 * (|s| - 1));
    }
  }

  /** 2 * 2^j <= 2^k when j < k. */
  lemma Pow2StrictlyMonotone(j: nat, k: nat)
    requires j < k
    ensures 2 * Pow2(j) <= Pow2(k)
  {
    Pow2Monotone(j + 1, k);
  }

  /** Powers of two are ordered as their exponents. */
  lemma Pow2Order(j: nat, k: nat)
    ensures Pow2(j) < Pow2(k) ==> j < k
  {
    if k <= j {
      Pow2Monotone(k, j);
    }
  }

  /** Log2Floor(n) is the only k with 2^k <= n < 2^(k+1). */
  lemma Log2FloorUnique(n: nat, k: nat)
    requires Pow2(k) <= n < 2 * Pow2(k)
    ensures Log2Floor(n) == k
  {
    var m := Log2Floor(n);
    if m < k {
      Pow2StrictlyMonotone(m, k);
    } else if k < m {
      Pow2StrictlyMonotone(k, m);
    }
  }

  /** The largest k with 2^k <= n. */
  function Log2Floor(n: nat): (k: nat)
    requires n >= 1
    ensures Pow2(k) <= n < 2 * Pow2(k)
    decreases n
  {
    if n == 1 then 0 else 1 + Log2Floor(n / 2)
  }

  // ---------------------------------------------------------------------
  // Bitwise operations on unsigned values, bit by bit from the least
  // significant end

  /** a ^ b */
  function BitXor(a: nat, b: nat): (r: nat)
    decreases a + b
  {
    if a == 0 && b == 0 then 0
    else 2 * BitXor(a / 2, b / 2) + (a % 2 + b % 2) % 2
  }

  /** a & b */
  function BitAnd(a: nat, b: nat): (r: nat)
    decreases a + b
  {
    if a == 0 || b == 0 then 0
    else 2 * BitAnd(a / 2, b / 2) + (a % 2) * (b % 2)
  }

  lemma {:induction false} BitXorZero(a: nat)
    ensures BitXor(a, 0) == a
  {
    if a != 0 {
      BitXorZero(a / 2);
    }
  }

  /** XOR of two values below 2^k stays below 2^k. */
  lemma {:induction false} BitXorBound(a: nat, b: nat, k: nat)
    requires a < Pow2(k) && b < Pow2(k)
    ensures BitXor(a, b) < Pow2(k)
    decreases k
  {
    if !(a == 0 && b == 0) {
      assert k > 0;
      BitXorBound(a / 2, b / 2, k - 1);
    }
  }

  /** a & b is at most b. */
  lemma {:induction false} BitAndAtMost(a: nat, b: nat)
    ensures BitAnd(a, b) <= b
    decreases a + b
  {
    if a != 0 && b != 0 {
      BitAndAtMost(a / 2, b / 2);
    }
  }

  /** Masking with 2^k - 1 keeps the low k bits: x & (2^k - 1) == x % 2^k. */
  lemma {:induction false} BitAndLowMask(x: nat, k: nat)
    ensures BitAnd(x, Pow2(k) - 1) == x % Pow2(k)
    decreases k
  {
    var p := Pow2(k);
    var m := p - 1;
    if k == 0 {
      assert p == 1 && m == 0;
    } else if x == 0 {
      assert BitAnd(x, m) == 0;
    } else {
      assert m / 2 == Pow2(k - 1) - 1 && m % 2 == 1;
      var low := BitAnd(x / 2, m / 2);
      assert BitAnd(x, m) == 2 * low + x % 2;
      BitAndLowMask(x / 2, k - 1);
      assert low == (x / 2) % Pow2(k - 1);
      ModPow2Step(x, k);
    }
  }

  lemma ModPow2Step(x: nat, k: nat)
    requires k > 0
    ensures x % Pow2(k) == 2 * ((x / 2) % Pow2(k - 1)) + x % 2
  {
    var p := Pow2(k - 1);
    var q, r := (x / 2) / p, (x / 2) % p;
    assert x / 2 == q * p + r;
    assert x == q * (2 * p) + (2 * r + x % 2);
    assert 0 <= 2 * r + x % 2 < 2 * p;
    DivModUnique(x, 2 * p, q, 2 * r + x % 2);
  }

  lemma DivModUnique(x: int, d: int, q: int, r: int)
    requires d > 0 && x == q * d + r && 0 <= r < d
    ensures x % d == r && x / d == q
  {
    var q0, r0 := x / d, x % d;
    assert (q - q0) * d == r0 - r by {
      assert q * d - q0 * d == (q - q0) * d;
    }
    if q0 < q {
      MulAtLeast(q - q0, d);
    } else if q < q0 {
      MulAtLeast(q0 - q, d);
    }
  }

  lemma {:induction false} MulAtLeast(n: int, d: int)
    requires n >= 1 && d > 0
    ensures n * d >= d
    decreases n
  {
    if n > 1 {
      MulAtLeast(n - 1, d);
      assert n * d == (n - 1) * d + d;
    }
  }

  // ---------------------------------------------------------------------
  // Decimal rendering of an unsigned integer, as std::to_string does it

  function DigitChar(d: nat): (c: char)
    requires d < 10
    ensures '0' <= c <= '9'
  {
    ('0' as int + d) as char
  }

  function DigitValue(c: char): nat
  {
    if '0' <= c <= '9' then (c as int) - ('0' as int) else 0
  }

  predicate IsDigits(s: string)
  {
    forall i :: 0 <= i < |s| ==> '0' <= s[i] <= '9'
  }

  /** The shortest decimal form of n, most significant digit first. */
  function Decimal(n: nat): (s: string)
    ensures |s| >= 1 && IsDigits(s)
    ensures n >= 10 ==> |s| >= 2
  {
    if n < 10 then [DigitChar(n)] else Decimal(n / 10) + [DigitChar(n % 10)]
  }

  /** The value of a string of decimal digits, the inverse of Decimal. */
  function DecimalValue(s: string): nat
  {
    if s == [] then 0 else 10 * DecimalValue(s[..|s| - 1]) + DigitValue(s[|s| - 1])
  }

  lemma {:induction false} DecimalRoundTrip(n: nat)
    ensures DecimalValue(Decimal(n)) == n
  {
    if n >= 10 {
      var s := Decimal(n);
      assert s[..|s| - 1] == Decimal(n / 10);
      DecimalRoundTrip(n / 10);
    }
  }

  /** Decimal rendering is injective: distinct counter values have distinct
      decimal forms. */
  lemma DecimalInjective(a: nat, b: nat)
    requires Decimal(a) == Decimal(b)
    ensures a == b
  {
    DecimalRoundTrip(a);
    DecimalRoundTrip(b);
  }

  // ---------------------------------------------------------------------
  // Counting characters

  /** The number of occurrences of c in s. */
  function Occurrences(s: string, c: char): nat
  {
    if s == [] then 0
    else Occurrences(s[..|s| - 1], c) + (if s[|s| - 1] == c then 1 else 0)
  }

  lemma {:induction false} OccurrencesAppend(a: string, b: string, c: char)
    ensures Occurrences(a + b, c) == Occurrences(a, c) + Occurrences(b, c)
    decreases |b|
  {
    if b == [] {
      assert a + b == a;
    } else {
      assert (a + b)[..|a + b| - 1] == a + b[..|b| - 1];
      OccurrencesAppend(a, b[..|b| - 1], c);
    }
  }

  // ---------------------------------------------------------------------
  // NUL-terminated strings

  const NUL: char := '\0'

  /** strlen: the number of characters before the first NUL (all of them
      when there is none). */
  function CStringLength(s: string): (r: nat)
    ensures r <= |s|
    ensures forall i :: 0 <= i < r ==> s[i] != NUL
    ensures r < |s| ==> s[r] == NUL
  {
    if s == [] || s[0] == NUL then 0 else 1 + CStringLength(s[1..])
  }

  /** The text a C string denotes: the characters before the first NUL. */
  function CString(s: string): (r: string)
    ensures NUL !in r
    ensures r == s[..CStringLength(s)]
  {
    s[..CStringLength(s)]
  }
}
