/** `hashToPosition(element, nonce)`: the position hash of the OPPRF table.
    The 8 bytes of the element and the 16 bytes of the nonce are laid out
    in one message, hashed with SHA-1 (FIPS 180-4, section 6.1), and the
    first 8 digest bytes are read back as a 64-bit word. SHA-1 itself is an
    uninterpreted parameter. */
module TableOpprf {
  import opened OpprfTypes

  /** `sizeof(uint64_t)` */
  const WordSize: nat := 8
  /** `sizeof(osuCrypto::block)` */
  const BlockSize: nat := 16
  /** Length of the hashed message. */
  const MessageLength: nat := WordSize + BlockSize

  /** The in-memory bytes of a word on a little-endian host. */
  function WordBytes(x: Word): (b: seq<Byte>)
    ensures |b| == WordSize
  {
    [ (x & 0xFF) as Byte, ((x >> 8) & 0xFF) as Byte,
      ((x >> 16) & 0xFF) as Byte, ((x >> 24) & 0xFF) as Byte,
      ((x >> 32) & 0xFF) as Byte, ((x >> 40) & 0xFF) as Byte,
      ((x >> 48) & 0xFF) as Byte, ((x >> 56) & 0xFF) as Byte ]
  }

  /** Eight bytes, the first the least significant, as a word. */
  function Pack(b0: Byte, b1: Byte, b2: Byte, b3: Byte, b4: Byte, b5: Byte, b6: Byte, b7: Byte): Word
  {
    (b0 as Word) | (b1 as Word << 8) | (b2 as Word << 16) | (b3 as Word << 24) |
    (b4 as Word << 32) | (b5 as Word << 40) | (b6 as Word << 48) | (b7 as Word << 56)
  }

  /** Each byte of a packed word can be masked back out. */
  lemma Unpack(b0: Byte, b1: Byte, b2: Byte, b3: Byte, b4: Byte, b5: Byte, b6: Byte, b7: Byte)
    ensures var w := Pack(b0, b1, b2, b3, b4, b5, b6, b7);
      && (w & 0xFF) as Byte == b0 && ((w >> 8) & 0xFF) as Byte == b1
      && ((w >> 16) & 0xFF) as Byte == b2 && ((w >> 24) & 0xFF) as Byte == b3
      && ((w >> 32) & 0xFF) as Byte == b4 && ((w >> 40) & 0xFF) as Byte == b5
      && ((w >> 48) & 0xFF) as Byte == b6 && ((w >> 56) & 0xFF) as Byte == b7
  {
  }

  /** A word whose bytes, masked out one by one, are `b0 .. b7` is laid out
      in memory as those bytes. */
  lemma BytesOfWord(w: Word, b0: Byte, b1: Byte, b2: Byte, b3: Byte, b4: Byte, b5: Byte, b6: Byte, b7: Byte)
    requires && (w & 0xFF) as Byte == b0 && ((w >> 8) & 0xFF) as Byte == b1
             && ((w >> 16) & 0xFF) as Byte == b2 && ((w >> 24) & 0xFF) as Byte == b3
             && ((w >> 32) & 0xFF) as Byte == b4 && ((w >> 40) & 0xFF) as Byte == b5
             && ((w >> 48) & 0xFF) as Byte == b6 && ((w >> 56) & 0xFF) as Byte == b7
    ensures WordBytes(w) == [b0, b1, b2, b3, b4, b5, b6, b7]
  {
  }

  /** A packed word is laid out in memory as the bytes it was packed from. */
  lemma PackedBytes(b0: Byte, b1: Byte, b2: Byte, b3: Byte, b4: Byte, b5: Byte, b6: Byte, b7: Byte)
    ensures WordBytes(Pack(b0, b1, b2, b3, b4, b5, b6, b7)) == [b0, b1, b2, b3, b4, b5, b6, b7]
  {
    Unpack(b0, b1, b2, b3, b4, b5, b6, b7);
    BytesOfWord(Pack(b0, b1, b2, b3, b4, b5, b6, b7), b0, b1, b2, b3, b4, b5, b6, b7);
  }

  /** Reads 8 bytes of memory back as a word on a little-endian host. */
  function ReadWord(b: seq<Byte>): Word
    requires |b| == WordSize
  {
    Pack(b[0], b[1], b[2], b[3], b[4], b[5], b[6], b[7])
  }

  /** Reading back the bytes of a word gives the word. */
  lemma ReadWordBytes(x: Word)
    ensures ReadWord(WordBytes(x)) == x
  {
  }

  /** Writing out a word read from 8 bytes gives the same bytes. */
  lemma WordBytesRead(b: seq<Byte>)
    requires |b| == WordSize
    ensures WordBytes(ReadWord(b)) == b
  {
    PackedBytes(b[0], b[1], b[2], b[3], b[4], b[5], b[6], b[7]);
    assert [b[0], b[1], b[2], b[3], b[4], b[5], b[6], b[7]] == b;
  }

  /** The in-memory bytes of a block: low half, then high half. */
  function BlockBytes(n: Block): (b: seq<Byte>)
    ensures |b| == BlockSize
  {
    WordBytes(n.lo) + WordBytes(n.hi)
  }

  /** The message buffer filled by the two `memcpy` calls. */
  function HashMessage(element: Word, nonce: Block): (m: seq<Byte>)
    ensures |m| == MessageLength
    ensures ReadWord(m[..WordSize]) == element
    ensures ReadWord(m[WordSize..2 * WordSize]) == nonce.lo
    ensures ReadWord(m[2 * WordSize..]) == nonce.hi
  {
    var m := WordBytes(element) + BlockBytes(nonce);
    ReadBackWord(m[..WordSize], element);
    ReadBackWord(m[WordSize..2 * WordSize], nonce.lo);
    ReadBackWord(m[2 * WordSize..], nonce.hi);
    m
  }

  /** Reading back bytes laid out from a word gives that word. */
  lemma ReadBackWord(b: seq<Byte>, x: Word)
    requires b == WordBytes(x)
    ensures ReadWord(b) == x
  {
    ReadWordBytes(x);
  }

  /** The message layout loses nothing: different (element, nonce) pairs are
      hashed as different messages. */
  lemma HashMessageInjective(e1: Word, n1: Block, e2: Word, n2: Block)
    requires HashMessage(e1, n1) == HashMessage(e2, n2)
    ensures e1 == e2 && n1 == n2
  {
    var m := HashMessage(e1, n1);
    assert ReadWord(m[..WordSize]) == e1 && ReadWord(m[..WordSize]) == e2;
  }

  /** `hashToPosition`: the first 8 digest bytes, in memory order, as a word;
      the remaining digest bytes are ignored. */
  function HashToPosition(sha1: Sha1, element: Word, nonce: Block): (r: Word)
    ensures WordBytes(r) == sha1(HashMessage(element, nonce))[..WordSize]
  {
    var digest := sha1(HashMessage(element, nonce));
    WordBytesRead(digest[..WordSize]);
    ReadWord(digest[..WordSize])
  }

  /** Two digests that agree on their first 8 bytes give the same position,
      whatever their remaining 12 bytes. */
  lemma PositionIgnoresDigestTail(sha1: Sha1, e1: Word, n1: Block, e2: Word, n2: Block)
    requires sha1(HashMessage(e1, n1))[..WordSize] == sha1(HashMessage(e2, n2))[..WordSize]
    ensures HashToPosition(sha1, e1, n1) == HashToPosition(sha1, e2, n2)
  {
    var r1, r2 := HashToPosition(sha1, e1, n1), HashToPosition(sha1, e2, n2);
    ReadWordBytes(r1);
    ReadWordBytes(r2);
  }

  /** `mask_ad = (1ULL << 2) - 1`: the two low bits select a row slot. */
  const SlotMask: Word := (1 << 2) - 1

  /** The row slot in which a mask lands for a given nonce: the low two bits
      of `hashToPosition(low64(mask), nonce)`. */
  function SlotOf(sha1: Sha1, mask: Block, nonce: Block): (s: nat)
    ensures s < Ts
  {
    (HashToPosition(sha1, Low64(mask), nonce) & SlotMask) as nat
  }

  /** The slot depends on the mask only through its low 64 bits, so the
      leader (indexing by a table mask) and the helper (indexing by its own
      OT mask) agree whenever those low halves agree. */
  lemma SlotOfLow64(sha1: Sha1, m1: Block, m2: Block, nonce: Block)
    requires Low64(m1) == Low64(m2)
    ensures SlotOf(sha1, m1, nonce) == SlotOf(sha1, m2, nonce)
  {
  }
}
