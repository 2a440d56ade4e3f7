/** cMath::Hash (engine/src/math.cpp), modelled for a 64-bit build, where
    cpuword is u64 and the final cast changes nothing.

    The source decrements an undeclared `byteSize` inside the loop; the
    evident variable is the parameter `dataByteSize`, and the model reads it
    so. As written, each pass of the loop consumes ONE byte (`*data++`) while
    the remaining count drops by four, so the loop runs floor(n/4) times over
    the first floor(n/4) bytes; the n % 4 bytes that follow those are then
    copied little-endian into the u32 `tail`. The model keeps that
    behaviour. All arithmetic is u64 arithmetic, written on unbounded integers with
    an explicit reduction modulo 2^64 after each step. */
module ByteHash {
  import opened Base

  const HASH_SEED: nat := 0x9e3779b97f4a7c15
  const BYTE_MULTIPLIER: nat := 0x9e3779b9
  const ROUND_MULTIPLIER: nat := 0xbf58476d1ce4e5b9

  /** One pass of the loop, mixing byte b into the running u64 hash h:
      (h ^ ((u64(b) * 0x9e3779b9) >> 32)) * 0xbf58476d1ce4e5b9, wrapping. */
  function Mix(h: nat, b: byte): (r: nat)
    ensures r < U64_MODULUS
  {
    U64(BitXor(h, (b as nat * BYTE_MULTIPLIER) / U32_MODULUS) * ROUND_MULTIPLIER)
  }

  /** The running hash after the loop has mixed in the bytes of s, in order. */
  function Rounds(s: seq<byte>): (r: nat)
    ensures r < U64_MODULUS
  {
    if s == [] then HASH_SEED else Mix(Rounds(s[..|s| - 1]), s[|s| - 1])
  }

  /** The value cMath::Hash computes for data. */
  function HashValue(data: seq<byte>): nat
  {
    var rounds := |data| / 4;
    BitXor(Rounds(data[..rounds]), LittleEndian(data[rounds..rounds + |data| % 4]))
  }

  lemma DivMod4(n: int, q: int, r: int)
    requires n == 4 * q + r && 0 <= r < 4
    ensures q == n / 4 && r == n % 4
  {
  }

  /** cMath::Hash: the loop over the data pointer and the remaining count. */
  method Hash(data: seq<byte>) returns (hash: nat)
    ensures hash == HashValue(data)
  {
    hash := HASH_SEED;
    var next := 0;                  // offset of the data pointer
    var remaining := |data|;        // dataByteSize
    while remaining >= 4
      invariant remaining == |data| - 4 * next
      invariant 0 <= remaining
      invariant hash == Rounds(data[..next])
    {
      assert data[..next + 1][..next] == data[..next];
      hash := Mix(hash, data[next]);
      next := next + 1;
      remaining := remaining - 4;
    }
    DivMod4(|data|, next, remaining);
    var tail := LittleEndian(data[next..next + remaining]);
    hash := BitXor(hash, tail);
  }

  /** Empty input hashes to the seed constant. */
  lemma HashOfEmpty()
    ensures HashValue([]) == HASH_SEED
  {
    BitXorZero(HASH_SEED);
  }

  /** The tail holds the n % 4 < 4 bytes after the loop's, so it is below
      2^24. */
  lemma TailBelow2To24(data: seq<byte>)
    ensures LittleEndian(data[|data| / 4..|data| / 4 + |data| % 4]) < 0x100_0000
  {
    var tail := data[|data| / 4..|data| / 4 + |data| % 4];
    LittleEndianBound(tail);
    Pow2Monotone(8 * |tail|, 24);
    Pow2Add8(0); Pow2Add8(8); Pow2Add8(16);
  }

  /** The hash is a u64 value: the loop's value is already reduced, and the
      tail is narrower still. */
  lemma HashIsU64(data: seq<byte>)
    ensures HashValue(data) < U64_MODULUS
  {
    var q := |data| / 4;
    var tail := data[q..q + |data| % 4];
    LittleEndianBound(tail);
    Pow2Monotone(8 * |tail|, 64);
    Pow2Is64();
    BitXorBound(Rounds(data[..q]), LittleEndian(tail), 64);
  }

  /** The hash reads only the first floor(n/4) + n % 4 bytes: inputs of the
      same length that agree there hash alike, whatever their other bytes. */
  lemma HashReadsOnlyPrefix(a: seq<byte>, b: seq<byte>)
    requires |a| == |b|
    requires a[..|a| / 4 + |a| % 4] == b[..|b| / 4 + |b| % 4]
    ensures HashValue(a) == HashValue(b)
  {
    var q, r := |a| / 4, |a| % 4;
    assert a[..q] == a[..q + r][..q] == b[..q + r][..q] == b[..q];
    assert a[q..q + r] == a[..q + r][q..] == b[..q + r][q..] == b[q..q + r];
  }
}
