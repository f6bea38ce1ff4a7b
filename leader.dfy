/** Leader side of the relaxed OPPRF exchange, `OpprgPsiLeader`: unmasking
    the helper's garbled filter at the leader's own cuckoo addresses, and the
    nonce-retry builder of the OPPRF table. The cuckoo addresses, the OT
    masks, the received filter and the generators are inputs. */
module RelaxedLeader {
  import opened OpprfTypes
  import opened TableOpprf

  /** Start of row `i` in a row-major vector with rows of `w` entries,
      counted row by row. */
  function RowStart(i: nat, w: nat): nat
  {
    if i == 0 then 0 else RowStart(i - 1, w) + w
  }

  /** Counting row by row gives the source's `i * w`. */
  lemma {:induction false} RowStartIsProduct(i: nat, w: nat)
    ensures RowStart(i, w) == i * w
  {
    if i > 0 {
      RowStartIsProduct(i - 1, w);
      assert (i - 1) * w + w == i * w;
    }
  }

  /** Rows before `n` end inside the first `n` rows. */
  lemma {:induction false} RowStartMonotone(i: nat, n: nat, w: nat)
    requires i < n
    ensures RowStart(i, w) + w <= RowStart(n, w)
  {
    if i + 1 < n {
      RowStartMonotone(i, n - 1, w);
    }
  }

  /** The values of one bin, whose cuckoo addresses start at `base` of the
      flat address vector, are unmasked: value `j` is the filter entry at the
      bin's `j`-th address XOR output `j` of a generator seeded with the
      bin's OT mask. */
  predicate BinUnmasked(filter: seq<Word>, addresses: seq<nat>, base: nat, mask: Block, prng: Prng,
                        values: seq<Word>)
  {
    && base + |values| <= |addresses|
    && forall j :: 0 <= j < |values| ==>
         addresses[base + j] < |filter| && values[j] == filter[addresses[base + j]] ^ prng(mask, j)
  }

  /** The inner unmasking loop for one bin (relaxed_opprf.cpp lines 177-180):
      `prngo.get` is called once per hash function, so value `j` takes
      output `j`. */
  method UnmaskBin(filter: seq<Word>, addresses: seq<nat>, base: nat, ffuns: nat, mask: Block, prng: Prng)
    returns (values: seq<Word>)
    requires base + ffuns <= |addresses|
    requires forall a :: 0 <= a < |addresses| ==> addresses[a] < |filter|
    ensures |values| == ffuns
    ensures BinUnmasked(filter, addresses, base, mask, prng, values)
  {
    values := [];
    for j := 0 to ffuns
      invariant |values| == j
      invariant forall q :: 0 <= q < j ==> values[q] == filter[addresses[base + q]] ^ prng(mask, q)
    {
      values := values + [filter[addresses[base + j]] ^ prng(mask, j)];
    }
  }

  /** The unmasking loop at relaxed_opprf.cpp lines 174-181 over all bins:
      bin `i`'s addresses are entries `i * ffuns ..` of the flat vector
      `addresses` that the cuckoo table reports. */
  method UnmaskFilter(filter: seq<Word>, addresses: seq<nat>, masks: seq<Block>, ffuns: nat, prng: Prng)
    returns (opprfValues: seq<seq<Word>>)
    requires |addresses| == RowStart(|masks|, ffuns)
    requires forall a :: 0 <= a < |addresses| ==> addresses[a] < |filter|
    ensures |opprfValues| == |masks|
    ensures forall i :: 0 <= i < |masks| ==> |opprfValues[i]| == ffuns
    ensures forall i :: 0 <= i < |masks| ==>
              BinUnmasked(filter, addresses, RowStart(i, ffuns), masks[i], prng, opprfValues[i])
  {
    opprfValues := [];
    for i := 0 to |masks|
      invariant |opprfValues| == i
      invariant forall b :: 0 <= b < i ==> |opprfValues[b]| == ffuns
      invariant forall b :: 0 <= b < i ==>
                  BinUnmasked(filter, addresses, RowStart(b, ffuns), masks[b], prng, opprfValues[b])
    {
      RowStartMonotone(i, |masks|, ffuns);
      var values := UnmaskBin(filter, addresses, RowStart(i, ffuns), ffuns, masks[i], prng);
      opprfValues := opprfValues + [values];
    }
  }

  /** The slots `bitaddress[0..ffuns)` a row of table masks lands in for a
      nonce. */
  function RowAddresses(sha1: Sha1, row: seq<Block>, nonce: Block): (ba: seq<nat>)
    ensures |ba| == |row|
    ensures forall f :: 0 <= f < |ba| ==> ba[f] < Ts
  {
    seq(|row|, f requires 0 <= f < |row| => SlotOf(sha1, row[f], nonce))
  }

  /** A nonce is accepted for a row when the row's slots are pairwise
      distinct (`uniqueMap` stays true). */
  predicate Accepts(sha1: Sha1, row: seq<Block>, nonce: Block)
  {
    Distinct(RowAddresses(sha1, row, nonce))
  }

  /** Pigeonhole over the `Ts` slots of a row: among more than `Ts` slots
      two are equal, and this finds two of them. */
  lemma FindCollision(s: seq<nat>) returns (j: nat, k: nat)
    requires |s| > Ts
    requires forall f :: 0 <= f < |s| ==> s[f] < Ts
    ensures j < k < |s| && s[j] == s[k]
  {
    var a, b, c, d, e := s[0], s[1], s[2], s[3], s[4];
    if a == b { j, k := 0, 1; }
    else if a == c { j, k := 0, 2; }
    else if a == d { j, k := 0, 3; }
    else if a == e { j, k := 0, 4; }
    else if b == c { j, k := 1, 2; }
    else if b == d { j, k := 1, 3; }
    else if b == e { j, k := 1, 4; }
    else if c == d { j, k := 2, 3; }
    else if c == e { j, k := 2, 4; }
    else if d == e { j, k := 3, 4; }
    else { assert false; }
  }

  /** At most `Ts` hash functions can claim distinct slots of a row. */
  lemma DistinctSlotsAtMostTs(s: seq<nat>)
    requires Distinct(s)
    requires forall f :: 0 <= f < |s| ==> s[f] < Ts
    ensures |s| <= Ts
  {
    if |s| > Ts {
      var j, k := FindCollision(s);
    }
  }

  /** With more hash functions than slots no nonce is ever accepted: the
      source's `while (!uniqueMap)` loop then never exits. */
  lemma NoRowAcceptedBeyondTs(sha1: Sha1, row: seq<Block>, nonce: Block)
    requires |row| > Ts
    ensures !Accepts(sha1, row, nonce)
  {
    if Accepts(sha1, row, nonce) {
      DistinctSlotsAtMostTs(RowAddresses(sha1, row, nonce));
    }
  }

  /** `bitIndex` inverts the slot assignment `bitAddress` of a row: each
      claimed slot maps to the hash function that claimed it and every other
      slot to the sentinel `Ts`. */
  predicate IndexesSlots(bitAddress: seq<nat>, bitIndex: seq<nat>)
  {
    && |bitIndex| == Ts
    && (forall f :: 0 <= f < |bitAddress| ==> bitAddress[f] < Ts && bitIndex[bitAddress[f]] == f)
    && (forall k :: 0 <= k < Ts ==> (bitIndex[k] == Ts <==> k !in bitAddress))
    && (forall k :: 0 <= k < Ts && bitIndex[k] != Ts ==> bitIndex[k] < |bitAddress| && bitAddress[bitIndex[k]] == k)
  }

  /** The collision check at relaxed_opprf.cpp lines 230-241 over the
      `bitindex` array, whose sentinel is `Ts`. It accepts exactly the rows
      of distinct slots; for such a row, `bitindex` maps each claimed slot to
      the hash function that claimed it and every other slot to `Ts`. */
  method ClaimSlots(bitAddress: seq<nat>) returns (unique: bool, bitIndex: seq<nat>)
    requires forall f :: 0 <= f < |bitAddress| ==> bitAddress[f] < Ts
    ensures |bitIndex| == Ts
    ensures unique <==> Distinct(bitAddress)
    ensures unique ==> IndexesSlots(bitAddress, bitIndex)
  {
    var index := new nat[Ts];
    for k := 0 to Ts
      invariant forall q :: 0 <= q < k ==> index[q] == Ts
    {
      index[k] := Ts;
    }
    unique := true;
    var j := 0;
    while j < |bitAddress|
      invariant 0 <= j <= |bitAddress| && j <= Ts
      invariant unique
      invariant Distinct(bitAddress[..j])
      invariant forall f :: 0 <= f < j ==> index[bitAddress[f]] == f
      invariant forall k :: 0 <= k < Ts ==> (index[k] == Ts <==> k !in bitAddress[..j])
      invariant forall k :: 0 <= k < Ts && index[k] != Ts ==> index[k] < j && bitAddress[index[k]] == k
    {
      var slot := bitAddress[j];
      if index[slot] != Ts {
        unique := false;
        assert bitAddress[index[slot]] == bitAddress[j] && index[slot] < j;
        break;
      }
      assert bitAddress[..j + 1] == bitAddress[..j] + [slot];
      assert slot !in bitAddress[..j];
      DistinctSlotsAtMostTs(bitAddress[..j + 1]);
      index[slot] := j;
      j := j + 1;
    }
    if unique {
      assert bitAddress[..j] == bitAddress;
    }
    bitIndex := index[..];
  }

  /** Number of slots below `k` that no hash function of the row claimed. */
  function Unclaimed(ba: seq<nat>, k: nat): nat
  {
    if k == 0 then 0 else Unclaimed(ba, k - 1) + (if k - 1 !in ba then 1 else 0)
  }

  /** With no hash function, every slot below `k` is unclaimed. */
  lemma {:induction false} UnclaimedOfEmpty(k: nat)
    ensures Unclaimed([], k) == k
  {
    if k > 0 {
      UnclaimedOfEmpty(k - 1);
    }
  }

  /** Dropping the last hash function of a row of distinct slots frees its
      slot, which counts below `k` when it lies below `k`. */
  lemma {:induction false} UnclaimedDropLast(ba: seq<nat>, k: nat)
    requires |ba| > 0 && ba[|ba| - 1] !in ba[..|ba| - 1]
    ensures Unclaimed(ba[..|ba| - 1], k) == Unclaimed(ba, k) + (if ba[|ba| - 1] < k then 1 else 0)
  {
    var last, init := ba[|ba| - 1], ba[..|ba| - 1];
    assert ba == init + [last];
    if k > 0 {
      UnclaimedDropLast(ba, k - 1);
      assert (k - 1 in ba) <==> (k - 1 in init || k - 1 == last);
    }
  }

  /** An accepted row of `n` hash functions leaves exactly `Ts - n` slots
      unclaimed, so each accepted row takes `Ts - n` dummy draws. */
  lemma {:induction false} UnclaimedOfDistinct(ba: seq<nat>)
    requires Distinct(ba)
    requires forall f :: 0 <= f < |ba| ==> ba[f] < Ts
    ensures |ba| <= Ts && Unclaimed(ba, Ts) == Ts - |ba|
  {
    DistinctSlotsAtMostTs(ba);
    if |ba| == 0 {
      UnclaimedOfEmpty(Ts);
    } else {
      var init := ba[..|ba| - 1];
      assert Distinct(init);
      UnclaimedOfDistinct(init);
      assert ba[|ba| - 1] < Ts;
      UnclaimedDropLast(ba, Ts);
    }
  }

  /** Row `base / Ts` of a table holds an accepted row whose hash functions
      claimed slots `ba`: the slot claimed by hash function `f` holds
      `low64(table_masks[i][f])` XOR the bin's value, and the `u`-th
      unclaimed slot (in slot order) the dummy draw number `d0 + u`. */
  predicate SlotsFilled(row: seq<Block>, content: Word, ba: seq<nat>, dummies: WordStream, d0: nat,
                        table: seq<Word>, base: nat)
    requires |ba| == |row|
  {
    && base + Ts <= |table|
    && (forall f :: 0 <= f < |row| ==> ba[f] < Ts && table[base + ba[f]] == Low64(row[f]) ^ content)
    && (forall k :: 0 <= k < Ts && k !in ba ==> table[base + k] == dummies(d0 + Unclaimed(ba, k)))
  }

  /** The row of the table at `base` encodes the bin under the nonce, for
      the slots the row lands in under it. */
  predicate EncodedRow(sha1: Sha1, row: seq<Block>, content: Word, nonce: Block,
                       dummies: WordStream, d0: nat, table: seq<Word>, base: nat)
  {
    SlotsFilled(row, content, RowAddresses(sha1, row, nonce), dummies, d0, table, base)
  }

  /** The address loop at relaxed_opprf.cpp lines 226-229: the slot of each
      hash function's table mask under the nonce. */
  method ComputeAddresses(sha1: Sha1, row: seq<Block>, nonce: Block) returns (bitAddress: seq<nat>)
    ensures bitAddress == RowAddresses(sha1, row, nonce)
  {
    bitAddress := [];
    for f := 0 to |row|
      invariant |bitAddress| == f
      invariant forall q :: 0 <= q < f ==> bitAddress[q] == SlotOf(sha1, row[q], nonce)
    {
      var address := HashToPosition(sha1, Low64(row[f]), nonce);
      bitAddress := bitAddress + [(address & SlotMask) as nat];
    }
  }

  /** What the fill loop writes into slot `k`: the claiming hash function's
      table mask XOR the bin's value, or for an unclaimed slot the next
      dummy draw. */
  function FilledSlot(row: seq<Block>, content: Word, bitAddress: seq<nat>, bitIndex: seq<nat>,
                      dummies: WordStream, d0: nat, k: nat): Word
    requires k < |bitIndex|
    requires bitIndex[k] != Ts ==> bitIndex[k] < |row|
  {
    if bitIndex[k] != Ts then Low64(row[bitIndex[k]]) ^ content else dummies(d0 + Unclaimed(bitAddress, k))
  }

  /** Slots holding `FilledSlot` everywhere are filled as the row promises. */
  lemma FilledSlotsFillRow(row: seq<Block>, content: Word, bitAddress: seq<nat>, bitIndex: seq<nat>,
                           dummies: WordStream, d0: nat, slots: seq<Word>)
    requires |bitAddress| == |row| && |slots| == Ts
    requires IndexesSlots(bitAddress, bitIndex)
    requires forall k :: 0 <= k < Ts ==> slots[k] == FilledSlot(row, content, bitAddress, bitIndex, dummies, d0, k)
    ensures SlotsFilled(row, content, bitAddress, dummies, d0, slots, 0)
  {
    forall f | 0 <= f < |row|
      ensures slots[bitAddress[f]] == Low64(row[f]) ^ content
    {
      assert bitIndex[bitAddress[f]] == f;
      assert slots[bitAddress[f]] == FilledSlot(row, content, bitAddress, bitIndex, dummies, d0, bitAddress[f]);
    }
    forall k | 0 <= k < Ts && k !in bitAddress
      ensures slots[k] == dummies(d0 + Unclaimed(bitAddress, k))
    {
      assert slots[k] == FilledSlot(row, content, bitAddress, bitIndex, dummies, d0, k);
    }
  }

  /** The fill loop at relaxed_opprf.cpp lines 243-251, given the `bitindex`
      array of an accepted row: a claimed slot takes the claiming hash
      function's mask XOR the bin's value, an unclaimed one the next dummy. */
  method FillRow(row: seq<Block>, content: Word, bitAddress: seq<nat>, bitIndex: seq<nat>,
                 dummies: WordStream, d0: nat) returns (slots: seq<Word>)
    requires |bitAddress| == |row|
    requires IndexesSlots(bitAddress, bitIndex)
    ensures |slots| == Ts
    ensures SlotsFilled(row, content, bitAddress, dummies, d0, slots, 0)
  {
    slots := [];
    var drawn := 0;
    for k := 0 to Ts
      invariant |slots| == k && drawn == Unclaimed(bitAddress, k)
      invariant forall q :: 0 <= q < k ==> slots[q] == FilledSlot(row, content, bitAddress, bitIndex, dummies, d0, q)
    {
      if bitIndex[k] != Ts {
        slots := slots + [Low64(row[bitIndex[k]]) ^ content];
      } else {
        slots := slots + [dummies(d0 + drawn)];
        drawn := drawn + 1;
      }
    }
    FilledSlotsFillRow(row, content, bitAddress, bitIndex, dummies, d0, slots);
  }

  /** One pass of the `while (!uniqueMap)` body (relaxed_opprf.cpp lines
      224-252) for a drawn nonce: it yields the encoded row exactly when the
      nonce is accepted. */
  method TryNonce(sha1: Sha1, row: seq<Block>, content: Word, nonce: Block, dummies: WordStream, d0: nat)
    returns (r: Option<seq<Word>>)
    ensures r.Some? <==> Accepts(sha1, row, nonce)
    ensures r.Some? ==> |r.value| == Ts && EncodedRow(sha1, row, content, nonce, dummies, d0, r.value, 0)
    ensures r.Some? ==> |row| <= Ts && Unclaimed(RowAddresses(sha1, row, nonce), Ts) == Ts - |row|
  {
    var bitAddress := ComputeAddresses(sha1, row, nonce);
    var unique, bitIndex := ClaimSlots(bitAddress);
    if !unique {
      return None;
    }
    UnclaimedOfDistinct(bitAddress);
    var slots := FillRow(row, content, bitAddress, bitIndex, dummies, d0);
    return Some(slots);
  }

  /** The `n` nonces drawn from number `k0` on are all rejected for the row. */
  predicate AllRejected(sha1: Sha1, row: seq<Block>, nonces: BlockStream, k0: nat, n: nat)
  {
    forall t :: k0 <= t < k0 + n ==> !Accepts(sha1, row, nonces(t))
  }

  /** A bin is built as the corrected builder promises: its nonce is draw
      `first + rejections` of the nonce generator, the one accepted after
      `rejections` rejected draws, and the table row at `base` encodes the
      bin under that nonce, with dummies from draw `d0` on. */
  predicate BinEncoded(sha1: Sha1, row: seq<Block>, content: Word, nonceStream: BlockStream,
                       first: nat, rejections: nat, nonce: Block, dummies: WordStream, d0: nat,
                       table: seq<Word>, base: nat)
  {
    && nonce == nonceStream(first + rejections)
    && Accepts(sha1, row, nonce)
    && AllRejected(sha1, row, nonceStream, first, rejections)
    && EncodedRow(sha1, row, content, nonce, dummies, d0, table, base)
  }

  /** One bin's nonce search, after the source's `while (!uniqueMap)` loop
      (relaxed_opprf.cpp lines 219-254), bounded by `maxTries` attempts.
      Nonce number `k0 + t` of the shared nonce generator is attempt `t`.
      On success the nonce is the first accepted one, `rejections` (the
      source's `ctr`) counts the attempts rejected before it, and the row is
      encoded; unclaimed slots take dummy draws `d0, d0 + 1, ...`. */
  method BuildRow(sha1: Sha1, row: seq<Block>, content: Word, nonces: BlockStream, k0: nat,
                  dummies: WordStream, d0: nat, maxTries: nat)
    returns (r: Option<(Block, nat, seq<Word>)>)
    ensures r.Some? ==>
              var (nonce, rejections, slots) := r.value;
              && rejections < maxTries && |slots| == Ts
              && BinEncoded(sha1, row, content, nonces, k0, rejections, nonce, dummies, d0, slots, 0)
              && |row| <= Ts && Unclaimed(RowAddresses(sha1, row, nonce), Ts) == Ts - |row|
    ensures r.None? ==> AllRejected(sha1, row, nonces, k0, maxTries)
  {
    var ctr := 0;
    while ctr < maxTries
      invariant ctr <= maxTries
      invariant AllRejected(sha1, row, nonces, k0, ctr)
    {
      var nonce := nonces(k0 + ctr);
      var slots := TryNonce(sha1, row, content, nonce, dummies, d0);
      if slots.Some? {
        return Some((nonce, ctr, slots.value));
      }
      ctr := ctr + 1;
    }
    return None;
  }

  /** Number of nonces drawn before bin `i`: each earlier bin took its
      rejected nonces plus the accepted one. */
  function NoncesBefore(rejections: seq<nat>, i: nat): nat
    requires i <= |rejections|
  {
    if i == 0 then 0 else NoncesBefore(rejections, i - 1) + rejections[i - 1] + 1
  }

  /** Sum of a sequence of counts. */
  function Sum(s: seq<nat>): nat
  {
    if |s| == 0 then 0 else Sum(s[..|s| - 1]) + s[|s| - 1]
  }

  /** The nonce generator is drawn once per rejection and once per bin; the
      rejections summed are what `ave_ctr` accumulates before the division
      by `nbins`. */
  lemma {:induction false} NoncesDrawn(rejections: seq<nat>, i: nat)
    requires i <= |rejections|
    ensures NoncesBefore(rejections, i) == Sum(rejections[..i]) + i
  {
    if i > 0 {
      NoncesDrawn(rejections, i - 1);
      assert rejections[..i][..i - 1] == rejections[..i - 1];
    }
  }

  /** The table the corrected builder promises for bins `0..n)`: `Ts` slots
      per bin, row-major, and bin `i` takes its nonces after the draws of the
      earlier bins and its dummies after their `Ts - ffuns` dummies each. */
  predicate TableSpec(sha1: Sha1, tableMasks: seq<seq<Block>>, contents: seq<Word>, ffuns: nat,
                      nonceStream: BlockStream, dummies: WordStream, n: nat,
                      nonces: seq<Block>, table: seq<Word>, rejections: seq<nat>)
    requires n <= |tableMasks| && n <= |contents|
  {
    && |nonces| == n && |rejections| == n && |table| == Ts * n
    && (n > 0 ==> ffuns <= Ts)
    && forall i :: 0 <= i < n ==>
         BinEncoded(sha1, tableMasks[i], contents[i], nonceStream, NoncesBefore(rejections, i),
                    rejections[i], nonces[i], dummies, RowStart(i, Ts - ffuns), table, Ts * i)
  }

  /** Draw counts of earlier bins do not change when a bin is added. */
  lemma {:induction false} NoncesBeforeAppend(rejections: seq<nat>, x: nat, i: nat)
    requires i <= |rejections|
    ensures NoncesBefore(rejections + [x], i) == NoncesBefore(rejections, i)
  {
    if i > 0 {
      NoncesBeforeAppend(rejections, x, i - 1);
      assert (rejections + [x])[i - 1] == rejections[i - 1];
    }
  }

  /** A row stays encoded when more rows are appended to the table. */
  lemma RowKeptByAppend(row: seq<Block>, content: Word, ba: seq<nat>, dummies: WordStream, d0: nat,
                        table: seq<Word>, base: nat, more: seq<Word>)
    requires |ba| == |row|
    requires SlotsFilled(row, content, ba, dummies, d0, table, base)
    ensures SlotsFilled(row, content, ba, dummies, d0, table + more, base)
  {
    assert forall x :: base <= x < base + Ts ==> (table + more)[x] == table[x];
  }

  /** A row built on its own is encoded at the end of the table it is
      appended to. */
  lemma RowPlacedByAppend(row: seq<Block>, content: Word, ba: seq<nat>, dummies: WordStream, d0: nat,
                          table: seq<Word>, slots: seq<Word>)
    requires |ba| == |row| && |slots| == Ts
    requires SlotsFilled(row, content, ba, dummies, d0, slots, 0)
    ensures SlotsFilled(row, content, ba, dummies, d0, table + slots, |table|)
  {
    assert forall x :: |table| <= x < |table| + Ts ==> (table + slots)[x] == slots[x - |table|];
  }

  /** A bin stays encoded when more rows are appended to the table. */
  lemma BinKeptByAppend(sha1: Sha1, row: seq<Block>, content: Word, nonceStream: BlockStream,
                        first: nat, rejections: nat, nonce: Block, dummies: WordStream, d0: nat,
                        table: seq<Word>, base: nat, more: seq<Word>)
    requires BinEncoded(sha1, row, content, nonceStream, first, rejections, nonce, dummies, d0, table, base)
    ensures BinEncoded(sha1, row, content, nonceStream, first, rejections, nonce, dummies, d0, table + more, base)
  {
    RowKeptByAppend(row, content, RowAddresses(sha1, row, nonce), dummies, d0, table, base, more);
  }

  /** A bin encoded on its own row is encoded at the end of the table the
      row is appended to. */
  lemma BinPlacedByAppend(sha1: Sha1, row: seq<Block>, content: Word, nonceStream: BlockStream,
                          first: nat, rejections: nat, nonce: Block, dummies: WordStream, d0: nat,
                          table: seq<Word>, slots: seq<Word>)
    requires |slots| == Ts
    requires BinEncoded(sha1, row, content, nonceStream, first, rejections, nonce, dummies, d0, slots, 0)
    ensures BinEncoded(sha1, row, content, nonceStream, first, rejections, nonce, dummies, d0, table + slots, |table|)
  {
    RowPlacedByAppend(row, content, RowAddresses(sha1, row, nonce), dummies, d0, table, slots);
  }

  /** The bins `0..n)` of a table stay encoded, with the same draw counts,
      when a bin is appended. */
  lemma BinsKeptByTableAppend(sha1: Sha1, tableMasks: seq<seq<Block>>, contents: seq<Word>, ffuns: nat,
                              nonceStream: BlockStream, dummies: WordStream, n: nat,
                              nonces: seq<Block>, table: seq<Word>, rejections: seq<nat>,
                              nonce: Block, ctr: nat, slots: seq<Word>)
    requires n <= |tableMasks| && n <= |contents|
    requires TableSpec(sha1, tableMasks, contents, ffuns, nonceStream, dummies, n, nonces, table, rejections)
    ensures forall b :: 0 <= b < n ==>
              BinEncoded(sha1, tableMasks[b], contents[b], nonceStream, NoncesBefore(rejections + [ctr], b),
                         (rejections + [ctr])[b], (nonces + [nonce])[b], dummies, RowStart(b, Ts - ffuns),
                         table + slots, Ts * b)
  {
    forall b | 0 <= b < n
      ensures BinEncoded(sha1, tableMasks[b], contents[b], nonceStream, NoncesBefore(rejections + [ctr], b),
                         (rejections + [ctr])[b], (nonces + [nonce])[b], dummies, RowStart(b, Ts - ffuns),
                         table + slots, Ts * b)
    {
      NoncesBeforeAppend(rejections, ctr, b);
      assert (rejections + [ctr])[b] == rejections[b] && (nonces + [nonce])[b] == nonces[b];
      BinKeptByAppend(sha1, tableMasks[b], contents[b], nonceStream, NoncesBefore(rejections, b),
                      rejections[b], nonces[b], dummies, RowStart(b, Ts - ffuns), table, Ts * b, slots);
    }
  }

  /** A bin encoded on its own row, after the draws of bins `0..n)`, is
      bin `n` of the table it is appended to. */
  lemma BinPlacedByTableAppend(sha1: Sha1, tableMasks: seq<seq<Block>>, contents: seq<Word>, ffuns: nat,
                               nonceStream: BlockStream, dummies: WordStream, n: nat,
                               nonces: seq<Block>, table: seq<Word>, rejections: seq<nat>,
                               nonce: Block, ctr: nat, slots: seq<Word>)
    requires n < |tableMasks| && n < |contents| && ffuns <= Ts
    requires |nonces| == n && |rejections| == n && |table| == Ts * n && |slots| == Ts
    requires BinEncoded(sha1, tableMasks[n], contents[n], nonceStream, NoncesBefore(rejections, n),
                        ctr, nonce, dummies, RowStart(n, Ts - ffuns), slots, 0)
    ensures BinEncoded(sha1, tableMasks[n], contents[n], nonceStream, NoncesBefore(rejections + [ctr], n),
                       (rejections + [ctr])[n], (nonces + [nonce])[n], dummies, RowStart(n, Ts - ffuns),
                       table + slots, Ts * n)
  {
    NoncesBeforeAppend(rejections, ctr, n);
    BinPlacedByAppend(sha1, tableMasks[n], contents[n], nonceStream, NoncesBefore(rejections, n),
                      ctr, nonce, dummies, RowStart(n, Ts - ffuns), table, slots);
  }

  /** Appending a bin encoded after the draws of bins `0..n)` extends the
      table specification from `n` to `n + 1` bins. */
  lemma TableSpecAppend(sha1: Sha1, tableMasks: seq<seq<Block>>, contents: seq<Word>, ffuns: nat,
                        nonceStream: BlockStream, dummies: WordStream, n: nat,
                        nonces: seq<Block>, table: seq<Word>, rejections: seq<nat>,
                        nonce: Block, ctr: nat, slots: seq<Word>)
    requires n < |tableMasks| && n < |contents| && ffuns <= Ts
    requires TableSpec(sha1, tableMasks, contents, ffuns, nonceStream, dummies, n, nonces, table, rejections)
    requires |slots| == Ts
    requires BinEncoded(sha1, tableMasks[n], contents[n], nonceStream, NoncesBefore(rejections, n),
                        ctr, nonce, dummies, RowStart(n, Ts - ffuns), slots, 0)
    ensures TableSpec(sha1, tableMasks, contents, ffuns, nonceStream, dummies, n + 1,
                      nonces + [nonce], table + slots, rejections + [ctr])
  {
    BinsKeptByTableAppend(sha1, tableMasks, contents, ffuns, nonceStream, dummies, n, nonces, table, rejections,
                          nonce, ctr, slots);
    BinPlacedByTableAppend(sha1, tableMasks, contents, ffuns, nonceStream, dummies, n, nonces, table, rejections,
                           nonce, ctr, slots);
    forall b | 0 <= b < n + 1
      ensures BinEncoded(sha1, tableMasks[b], contents[b], nonceStream, NoncesBefore(rejections + [ctr], b),
                         (rejections + [ctr])[b], (nonces + [nonce])[b], dummies, RowStart(b, Ts - ffuns),
                         table + slots, Ts * b)
    {
      if b == n {
      }
    }
  }

  /** Row `i` of a table built to the specification encodes bin `i` under
      the bin's nonce. */
  lemma TableSpecRow(sha1: Sha1, tableMasks: seq<seq<Block>>, contents: seq<Word>, ffuns: nat,
                     nonceStream: BlockStream, dummies: WordStream, n: nat,
                     nonces: seq<Block>, table: seq<Word>, rejections: seq<nat>, i: nat)
    requires n <= |tableMasks| && n <= |contents| && i < n
    requires TableSpec(sha1, tableMasks, contents, ffuns, nonceStream, dummies, n, nonces, table, rejections)
    ensures |nonces| == n && |table| == Ts * n && ffuns <= Ts
    ensures EncodedRow(sha1, tableMasks[i], contents[i], nonces[i], dummies, RowStart(i, Ts - ffuns), table, Ts * i)
  {
    assert BinEncoded(sha1, tableMasks[i], contents[i], nonceStream, NoncesBefore(rejections, i),
                      rejections[i], nonces[i], dummies, RowStart(i, Ts - ffuns), table, Ts * i);
  }

  /** The table loop at relaxed_opprf.cpp lines 202-256, each bin's search
      bounded by `maxTries`. On success: one nonce per bin (the first one the
      bin accepts, `padding_vals[i]`), the per-bin rejection counts, and the
      `nbins * Ts` table, row-major. When some bin exhausts its attempts the
      builder stops with `NonceExhaustion`. With `ffuns > Ts` every
      non-empty run stops that way. */
  method BuildTable(sha1: Sha1, tableMasks: seq<seq<Block>>, contents: seq<Word>, ffuns: nat,
                    nonceStream: BlockStream, dummies: WordStream, maxTries: nat)
    returns (r: Result<(seq<Block>, seq<Word>, seq<nat>), TableError>)
    requires |contents| == |tableMasks|
    requires forall i :: 0 <= i < |tableMasks| ==> |tableMasks[i]| == ffuns
    ensures r.Ok? ==>
              var (nonces, table, rejections) := r.value;
              TableSpec(sha1, tableMasks, contents, ffuns, nonceStream, dummies, |tableMasks|,
                        nonces, table, rejections)
    ensures r.Err? ==>
              && r.error.bin < |tableMasks|
              && AllRejected(sha1, tableMasks[r.error.bin], nonceStream, r.error.firstNonce, maxTries)
    ensures ffuns > Ts && |tableMasks| > 0 ==> r.Err?
  {
    var nonces: seq<Block> := [];
    var table: seq<Word> := [];
    var rejections: seq<nat> := [];
    var nonceIndex := 0;
    var dummyIndex := 0;
    for i := 0 to |tableMasks|
      invariant TableSpec(sha1, tableMasks, contents, ffuns, nonceStream, dummies, i, nonces, table, rejections)
      invariant nonceIndex == NoncesBefore(rejections, i)
      invariant i > 0 ==> dummyIndex == RowStart(i, Ts - ffuns)
      invariant i == 0 ==> dummyIndex == 0
    {
      var row := BuildRow(sha1, tableMasks[i], contents[i], nonceStream, nonceIndex, dummies, dummyIndex, maxTries);
      if row.None? {
        return Err(NonceExhaustion(i, nonceIndex));
      }
      var (nonce, ctr, slots) := row.value;
      TableSpecAppend(sha1, tableMasks, contents, ffuns, nonceStream, dummies, i, nonces, table, rejections,
                      nonce, ctr, slots);
      NoncesBeforeAppend(rejections, ctr, i);
      nonces := nonces + [nonce];
      rejections := rejections + [ctr];
      table := table + slots;
      nonceIndex := nonceIndex + ctr + 1;
      dummyIndex := dummyIndex + (Ts - ffuns);
    }
    return Ok((nonces, table, rejections));
  }

  /** The claimed-slot test as written at relaxed_opprf.cpp line 246:
      `bitindex[j] != -1` on a `uint8_t` entry, which is promoted to `int`
      and so compared against a value it can never take. */
  function ClaimedTestAsWritten(entry: Byte): bool
  {
    entry as int != -1
  }

  /** The fill loop as written at relaxed_opprf.cpp lines 243-251: the test
      always passes, so every slot reads `table_masks[i][bitindex[j]]`, and
      the first slot whose entry is not a hash-function index of the row is
      reported as an out-of-range read (`Err(slot)`) instead of a value. */
  method FillRowAsWritten(row: seq<Block>, content: Word, bitIndex: seq<Byte>) returns (r: Result<seq<Word>, nat>)
    requires |bitIndex| == Ts
    ensures r.Ok? <==> forall k :: 0 <= k < Ts ==> bitIndex[k] as int < |row|
    ensures r.Ok? ==> |r.value| == Ts
    ensures r.Ok? ==> forall k :: 0 <= k < Ts ==>
              bitIndex[k] as int < |row| && r.value[k] == Low64(row[bitIndex[k]]) ^ content
    ensures r.Err? ==> r.error < Ts && bitIndex[r.error] as int >= |row|
  {
    var slots: seq<Word> := [];
    for k := 0 to Ts
      invariant |slots| == k
      invariant forall q :: 0 <= q < k ==> bitIndex[q] as int < |row| && slots[q] == Low64(row[bitIndex[q]]) ^ content
    {
      if ClaimedTestAsWritten(bitIndex[k]) {
        if bitIndex[k] as int >= |row| {
          return Err(k);
        }
        slots := slots + [Low64(row[bitIndex[k]]) ^ content];
      } else {
        slots := slots + [0];
      }
    }
    return Ok(slots);
  }

  /** The dummy branch at relaxed_opprf.cpp line 249 is unreachable. */
  lemma DummyBranchDead(entry: Byte)
    ensures ClaimedTestAsWritten(entry)
  {
  }

  /** Fewer than `Ts` hash functions leave some slot unclaimed. */
  lemma {:induction false} SomeSlotUnclaimed(ba: seq<nat>, k: nat) returns (q: nat)
    requires Unclaimed(ba, k) > 0
    ensures q < k && q !in ba
  {
    if k - 1 !in ba {
      q := k - 1;
    } else {
      q := SomeSlotUnclaimed(ba, k - 1);
    }
  }

  /** With fewer hash functions than slots, every accepted row has a slot
      whose `bitindex` entry is the sentinel `Ts`, which is not an index of
      the row: the fill as written reads `table_masks[i][Ts]` past the end
      of the row instead of drawing a dummy. */
  lemma UnclaimedSlotReadsPastRow(sha1: Sha1, row: seq<Block>, nonce: Block, bitIndex: seq<nat>)
    returns (k: nat)
    requires |row| < Ts && Accepts(sha1, row, nonce)
    requires IndexesSlots(RowAddresses(sha1, row, nonce), bitIndex)
    ensures k < Ts && bitIndex[k] == Ts && bitIndex[k] >= |row|
  {
    var ba := RowAddresses(sha1, row, nonce);
    UnclaimedOfDistinct(ba);
    k := SomeSlotUnclaimed(ba, Ts);
  }
}
