/** What the two sides of one leader-helper exchange achieve together: the
    pads the helper puts into the garbled filter are the ones the leader
    takes off, and the helper's resolver reads back the leader's bin value
    whenever its OT mask agrees with one of the leader's table masks. */
module RelaxedExchange {
  import opened OpprfTypes
  import opened TableOpprf
  import opened RelaxedHelper
  import opened RelaxedLeader

  /** XOR with the same word twice is the identity. */
  lemma XorCancels(value: Word, pad: Word)
    ensures (value ^ pad) ^ pad == value
    ensures pad ^ (pad ^ value) == value
  {
  }

  /** Pad cancellation (relaxed_opprf.cpp lines 121-126 against 176-181).
      The helper built filter entry `s` from its cuckoo slot, and the leader
      unmasked one bin whose `j`-th address is `s`. If hash function `j`
      placed element `e` in that slot, and the leader's mask for the bin is
      the helper's OT mask for `e`'s position, the leader's `j`-th value is
      the helper's value of `e`'s bin. */
  lemma PadCancels(slots: seq<CuckooSlot>, tloc: map<Key, Loc>, helperMasks: seq<seq<Block>>,
                   contents: seq<Word>, prng: Prng, empties: WordStream, filter: seq<Word>,
                   addresses: seq<nat>, base: nat, leaderMask: Block, values: seq<Word>, j: nat)
    requires Locatable(slots, tloc, helperMasks, contents) && |filter| == |slots|
    requires BinUnmasked(filter, addresses, base, leaderMask, prng, values) && j < |values|
    requires addresses[base + j] < |slots|
    requires filter[addresses[base + j]] == FilterEntry(slots, tloc, helperMasks, contents, prng, empties, addresses[base + j])
    requires slots[addresses[base + j]].Occupied? && slots[addresses[base + j]].functionId == j
    requires leaderMask == helperMasks[tloc[Key(slots[addresses[base + j]].element)].bin]
                                      [tloc[Key(slots[addresses[base + j]].element)].index]
    ensures values[j] == contents[tloc[Key(slots[addresses[base + j]].element)].bin]
  {
    var s := addresses[base + j];
    var l := tloc[Key(slots[s].element)];
    XorCancels(contents[l.bin], prng(leaderMask, j));
  }

  /** One row of the table: a helper mask whose low half is that of the
      table mask of hash function `f` lands in the slot `f` claimed, which
      holds that low half XOR the bin's value. */
  lemma RowSlotOfMatch(sha1: Sha1, row: seq<Block>, content: Word, dummies: WordStream, d0: nat,
                       table: seq<Word>, helperMasks: seq<Block>, nonces: seq<Block>, i: nat, f: nat)
    requires i < |helperMasks| && i < |nonces|
    requires EncodedRow(sha1, row, content, nonces[i], dummies, d0, table, Ts * i)
    requires f < |row| && Low64(helperMasks[i]) == Low64(row[f])
    ensures Ts * i + SlotOf(sha1, helperMasks[i], nonces[i]) < |table|
    ensures table[Ts * i + SlotOf(sha1, helperMasks[i], nonces[i])] == Low64(helperMasks[i]) ^ content
  {
    SlotOfLow64(sha1, helperMasks[i], row[f], nonces[i]);
  }

  /** The helper takes its own low half back off the slot it reads. */
  lemma RowResolves(sha1: Sha1, row: seq<Block>, content: Word, dummies: WordStream, d0: nat,
                    table: seq<Word>, helperMasks: seq<Block>, nonces: seq<Block>, i: nat, f: nat)
    requires i < |helperMasks| && i < |nonces| && |table| == Ts * |helperMasks|
    requires EncodedRow(sha1, row, content, nonces[i], dummies, d0, table, Ts * i)
    requires f < |row| && Low64(helperMasks[i]) == Low64(row[f])
    ensures ResolvedValue(sha1, helperMasks, nonces, table, i) == content
  {
    RowSlotOfMatch(sha1, row, content, dummies, d0, table, helperMasks, nonces, i, f);
    XorCancels(content, Low64(helperMasks[i]));
  }

  /** Resolver round trip (relaxed_opprf.cpp lines 155-159 against 226-247).
      The leader built the table for all bins, and the helper received its
      nonces. If the low half of the helper's mask for bin `i` equals the
      low half of the leader's table mask of some hash function `f` of the
      bin, the helper reads back exactly the leader's value for bin `i`. */
  lemma ResolverRecoversContent(sha1: Sha1, tableMasks: seq<seq<Block>>, contents: seq<Word>, ffuns: nat,
                                nonceStream: BlockStream, dummies: WordStream,
                                nonces: seq<Block>, table: seq<Word>, rejections: seq<nat>,
                                helperMasks: seq<Block>, i: nat, f: nat)
    requires |contents| == |tableMasks| && |helperMasks| == |tableMasks|
    requires TableSpec(sha1, tableMasks, contents, ffuns, nonceStream, dummies, |tableMasks|, nonces, table, rejections)
    requires i < |tableMasks| && f < |tableMasks[i]|
    requires Low64(helperMasks[i]) == Low64(tableMasks[i][f])
    ensures ResolvedValue(sha1, helperMasks, nonces, table, i) == contents[i]
  {
    TableSpecRow(sha1, tableMasks, contents, ffuns, nonceStream, dummies, |tableMasks|,
                 nonces, table, rejections, i);
    RowResolves(sha1, tableMasks[i], contents[i], dummies, RowStart(i, Ts - ffuns),
                table, helperMasks, nonces, i, f);
  }

  /** One row of the table: a helper mask that lands in a slot no hash
      function claimed reads that slot's dummy draw. */
  lemma RowReadsDummy(sha1: Sha1, row: seq<Block>, content: Word, dummies: WordStream, d0: nat,
                      table: seq<Word>, helperMasks: seq<Block>, nonces: seq<Block>, i: nat)
    requires i < |helperMasks| && i < |nonces|
    requires EncodedRow(sha1, row, content, nonces[i], dummies, d0, table, Ts * i)
    requires SlotOf(sha1, helperMasks[i], nonces[i]) !in RowAddresses(sha1, row, nonces[i])
    ensures Ts * i + SlotOf(sha1, helperMasks[i], nonces[i]) < |table|
    ensures table[Ts * i + SlotOf(sha1, helperMasks[i], nonces[i])]
              == dummies(d0 + Unclaimed(RowAddresses(sha1, row, nonces[i]), SlotOf(sha1, helperMasks[i], nonces[i])))
  {
  }

  /** The other case of the resolver: a helper mask whose slot no hash
      function of the bin claimed reads that slot's dummy draw, so the
      helper's value is a dummy masked with its own low half. */
  lemma ResolverReadsDummy(sha1: Sha1, tableMasks: seq<seq<Block>>, contents: seq<Word>, ffuns: nat,
                           nonceStream: BlockStream, dummies: WordStream,
                           nonces: seq<Block>, table: seq<Word>, rejections: seq<nat>,
                           helperMasks: seq<Block>, i: nat)
    requires |contents| == |tableMasks| && |helperMasks| == |tableMasks|
    requires TableSpec(sha1, tableMasks, contents, ffuns, nonceStream, dummies, |tableMasks|, nonces, table, rejections)
    requires i < |tableMasks|
    requires SlotOf(sha1, helperMasks[i], nonces[i]) !in RowAddresses(sha1, tableMasks[i], nonces[i])
    ensures Ts * i + SlotOf(sha1, helperMasks[i], nonces[i]) < |table|
    ensures table[Ts * i + SlotOf(sha1, helperMasks[i], nonces[i])]
              == dummies(RowStart(i, Ts - ffuns)
                   + Unclaimed(RowAddresses(sha1, tableMasks[i], nonces[i]), SlotOf(sha1, helperMasks[i], nonces[i])))
  {
    TableSpecRow(sha1, tableMasks, contents, ffuns, nonceStream, dummies, |tableMasks|,
                 nonces, table, rejections, i);
    RowReadsDummy(sha1, tableMasks[i], contents[i], dummies, RowStart(i, Ts - ffuns),
                  table, helperMasks, nonces, i);
  }
}
