/** Value types shared by the relaxed OPPRF model: machine words, the 128-bit
    block of the crypto library, digests of the position hash, and the
    oracles (SHA-1, seeded generators, fresh randomness) the core calls. */
module OpprfTypes {

  /** A `uint64_t`. */
  type Word = bv64

  /** An `unsigned char`. */
  type Byte = bv8

  /** A 128-bit block (`osuCrypto::block`), as its two 64-bit halves. On the
      little-endian hosts the code targets, `reinterpret_cast<uint64_t *>(&b)[0]`
      is the low half. */
  datatype Block = Block(lo: Word, hi: Word)

  /** The low 64 bits of a block. */
  function Low64(b: Block): Word
  {
    b.lo
  }

  /** Number of bytes of a SHA-1 digest (`SHA_DIGEST_LENGTH`). */
  const DigestLength: nat := 20

  type Digest = d: seq<Byte> | |d| == DigestLength
    witness [0, 0, 0, 0, 0, 0, 0, 0, 0, 0, 0, 0, 0, 0, 0, 0, 0, 0, 0, 0]

  /** SHA-1 as an uninterpreted function from a message to its digest. */
  type Sha1 = seq<Byte> -> Digest

  /** A generator seeded with a block: `Prng(seed, k)` is its k-th 64-bit
      output, counted from 0. */
  type Prng = (Block, nat) -> Word

  /** A stream of 64-bit outputs of a generator seeded from the system
      (`sysRandomSeed()`): `s(k)` is the k-th output, counted from 0. */
  type WordStream = nat -> Word

  /** A stream of 128-bit outputs of a system-seeded generator. */
  type BlockStream = nat -> Block

  /** Number of slots in one row of the OPPRF table (`const int ts = 4`). */
  const Ts: nat := 4

  /** Slot `k` of row `i` of a table with `n` rows of `Ts` slots is in range. */
  lemma RowIndexInRange(i: nat, n: nat, k: nat)
    requires i < n && k < Ts
    ensures Ts * i + k < Ts * n
  {
    assert Ts * i + Ts == Ts * (i + 1);
  }

  /** Errors the model surfaces instead of looping forever. */
  datatype TableError = NonceExhaustion(bin: nat, firstNonce: nat)

  datatype Result<+T, +E> = Ok(value: T) | Err(error: E)

  datatype Option<+T> = None | Some(value: T)

  /** All elements of a sequence are pairwise different. */
  predicate Distinct<T(==)>(s: seq<T>)
  {
    forall j, k :: 0 <= j < |s| && 0 <= k < |s| && j != k ==> s[j] != s[k]
  }
}
