/** Helper (non-leader) side of the relaxed OPPRF exchange, `OpprgPsiNonLeader`:
    the element-location index over the simple table, the garbled cuckoo
    filter sent to the leader, and the resolver that reads one value per bin
    back out of the leader's OPPRF table. The cuckoo table, the OT masks, the
    generators and the received buffers are inputs. */
module RelaxedHelper {
  import opened OpprfTypes
  import opened TableOpprf

  /** `hashlocmap`: the bin of the simple table an element was found in and
      its index inside that bin (two `int`s, as in the source). */
  datatype Loc = Loc(bin: int, index: int)

  /** A key of `tloc` (`std::unordered_map<uint64_t, hashlocmap>`): an
      element, wrapped so that quantifiers over elements (`forall e ::
      Key(e) in tloc ...`) have the term `Key(e)` to trigger on. */
  datatype Key = Key(element: Word)

  /** `l1` is the same position as `l2` or comes after it in the scan order
      (bins in order, elements of a bin in order). */
  predicate NotBefore(l1: Loc, l2: Loc)
  {
    l1.bin > l2.bin || (l1.bin == l2.bin && l1.index >= l2.index)
  }

  /** The simple table's bins concatenated in bin order. */
  function Flatten(bins: seq<seq<Word>>): seq<Word>
  {
    if |bins| == 0 then [] else Flatten(bins[..|bins| - 1]) + bins[|bins| - 1]
  }

  /** `tloc` after the first `j` elements of bin `b` were recorded on top of `m`. */
  function IndexBin(m: map<Key, Loc>, bin: seq<Word>, b: nat, j: nat): map<Key, Loc>
    requires j <= |bin|
  {
    if j == 0 then m else IndexBin(m, bin, b, j - 1)[Key(bin[j - 1]) := Loc(b, j - 1)]
  }

  /** `tloc` after the first `i` bins of the simple table were scanned. */
  function IndexBins(table: seq<seq<Word>>, i: nat): map<Key, Loc>
    requires i <= |table|
  {
    if i == 0 then map[] else IndexBin(IndexBins(table, i - 1), table[i - 1], i - 1, |table[i - 1]|)
  }

  /** `tloc` once the whole simple table was scanned. */
  function LocationIndex(table: seq<seq<Word>>): map<Key, Loc>
  {
    IndexBins(table, |table|)
  }

  /** What recording one bin does to the index: every element of the bin
      gets a position inside the bin no earlier than any of its occurrences,
      and every other entry is left as it was. */
  lemma {:induction false} IndexBinFacts(m: map<Key, Loc>, bin: seq<Word>, b: nat, j: nat)
    requires j <= |bin|
    ensures forall e :: Key(e) in IndexBin(m, bin, b, j) <==> Key(e) in m || e in bin[..j]
    ensures forall e :: Key(e) in m && e !in bin[..j] ==> IndexBin(m, bin, b, j)[Key(e)] == m[Key(e)]
    ensures forall k :: 0 <= k < j ==>
              var l := IndexBin(m, bin, b, j)[Key(bin[k])];
              l.bin == b && k <= l.index < j && bin[l.index] == bin[k]
  {
    if j > 0 {
      IndexBinFacts(m, bin, b, j - 1);
      var x := bin[j - 1];
      assert bin[..j] == bin[..j - 1] + [x];
      forall k | 0 <= k < j
        ensures var l := IndexBin(m, bin, b, j)[Key(bin[k])];
                l.bin == b && k <= l.index < j && bin[l.index] == bin[k]
      {
        if bin[k] != x {
          assert k < j - 1;
        }
      }
    }
  }

  /** `tloc` after `i` bins: its keys are exactly the elements scanned, each
      maps to a position holding that element, and that position is the last
      occurrence of the element (a repeated element keeps its last place). */
  lemma {:induction false} IndexBinsFacts(table: seq<seq<Word>>, i: nat)
    requires i <= |table|
    ensures forall e :: Key(e) in IndexBins(table, i) <==> e in Flatten(table[..i])
    ensures forall e :: Key(e) in IndexBins(table, i) ==>
              var l := IndexBins(table, i)[Key(e)];
              0 <= l.bin < i && 0 <= l.index < |table[l.bin]| && table[l.bin][l.index] == e
    ensures forall b, k :: 0 <= b < i && 0 <= k < |table[b]| ==>
              Key(table[b][k]) in IndexBins(table, i) && NotBefore(IndexBins(table, i)[Key(table[b][k])], Loc(b, k))
  {
    if i > 0 {
      IndexBinsFacts(table, i - 1);
      var m := IndexBins(table, i - 1);
      var bin := table[i - 1];
      IndexBinFacts(m, bin, i - 1, |bin|);
      assert bin[..|bin|] == bin;
      assert table[..i][..i - 1] == table[..i - 1];
      assert Flatten(table[..i]) == Flatten(table[..i - 1]) + bin;
      var r := IndexBins(table, i);
      forall e | Key(e) in r
        ensures 0 <= r[Key(e)].bin < i && 0 <= r[Key(e)].index < |table[r[Key(e)].bin]|
        ensures table[r[Key(e)].bin][r[Key(e)].index] == e
      {
        if e in bin {
          var k :| 0 <= k < |bin| && bin[k] == e;
        }
      }
      forall b, k | 0 <= b < i && 0 <= k < |table[b]|
        ensures Key(table[b][k]) in r && NotBefore(r[Key(table[b][k])], Loc(b, k))
      {
        if b < i - 1 {
          if table[b][k] in bin {
            var k' :| 0 <= k' < |bin| && bin[k'] == table[b][k];
          }
        } else {
          assert table[b][k] == bin[k];
        }
      }
    }
  }

  /** The whole index: positions for exactly the inserted elements, each
      holding its element, each the element's last occurrence. */
  lemma LocationIndexCorrect(table: seq<seq<Word>>)
    ensures forall e :: Key(e) in LocationIndex(table) <==> e in Flatten(table)
    ensures forall e :: Key(e) in LocationIndex(table) ==>
              var l := LocationIndex(table)[Key(e)];
              0 <= l.bin < |table| && 0 <= l.index < |table[l.bin]| && table[l.bin][l.index] == e
    ensures forall b, k :: 0 <= b < |table| && 0 <= k < |table[b]| ==>
              Key(table[b][k]) in LocationIndex(table) && NotBefore(LocationIndex(table)[Key(table[b][k])], Loc(b, k))
  {
    IndexBinsFacts(table, |table|);
    assert table[..|table|] == table;
  }

  /** The scan at relaxed_opprf.cpp lines 89-98: records `tloc` and flattens
      the simple table into `filterinputs`. */
  method BuildLocationIndex(table: seq<seq<Word>>) returns (tloc: map<Key, Loc>, filterInputs: seq<Word>)
    ensures tloc == LocationIndex(table)
    ensures filterInputs == Flatten(table)
  {
    tloc := map[];
    filterInputs := [];
    for i := 0 to |table|
      invariant tloc == IndexBins(table, i)
      invariant filterInputs == Flatten(table[..i])
    {
      var binSize := |table[i]|;
      for j := 0 to binSize
        invariant tloc == IndexBin(IndexBins(table, i), table[i], i, j)
        invariant filterInputs == Flatten(table[..i]) + table[i][..j]
      {
        tloc := tloc[Key(table[i][j]) := Loc(i, j)];
        filterInputs := filterInputs + [table[i][j]];
        assert table[i][..j + 1] == table[i][..j] + [table[i][j]];
      }
      assert table[i][..binSize] == table[i];
      assert table[..i + 1][..i] == table[..i];
    }
    assert table[..|table|] == table;
  }

  /** One slot of the cuckoo table: empty, or an element together with the
      index of the hash function that placed it. */
  datatype CuckooSlot = Empty | Occupied(element: Word, functionId: nat)

  /** Number of empty slots among the first `s` slots. */
  function EmptyBefore(slots: seq<CuckooSlot>, s: nat): nat
    requires s <= |slots|
  {
    if s == 0 then 0 else EmptyBefore(slots, s - 1) + (if slots[s - 1].Empty? then 1 else 0)
  }

  /** A location that addresses an OT mask and a bin value. */
  predicate ValidLoc(l: Loc, masks: seq<seq<Block>>, contents: seq<Word>)
  {
    0 <= l.bin < |masks| && l.bin < |contents| && 0 <= l.index < |masks[l.bin]|
  }

  /** Every occupied slot's element has a location, and every location is
      valid. */
  predicate Locatable(slots: seq<CuckooSlot>, tloc: map<Key, Loc>, masks: seq<seq<Block>>, contents: seq<Word>)
  {
    && (forall s :: 0 <= s < |slots| && slots[s].Occupied? ==> Key(slots[s].element) in tloc)
    && (forall k :: k in tloc ==> ValidLoc(tloc[k], masks, contents))
  }

  /** The pad of an occupied slot: output number `function_id` (from 0) of a
      generator seeded with the element's OT mask. */
  function SlotPad(tloc: map<Key, Loc>, masks: seq<seq<Block>>, contents: seq<Word>, prng: Prng, slot: CuckooSlot): Word
    requires slot.Occupied? && Key(slot.element) in tloc && ValidLoc(tloc[Key(slot.element)], masks, contents)
  {
    var l := tloc[Key(slot.element)];
    prng(masks[l.bin][l.index], slot.functionId)
  }

  /** Entry `s` of the garbled filter: an occupied slot holds its bin's value
      masked with its pad, an empty slot the next output of the unrelated
      generator `prngo`. */
  function FilterEntry(slots: seq<CuckooSlot>, tloc: map<Key, Loc>, masks: seq<seq<Block>>,
                       contents: seq<Word>, prng: Prng, empties: WordStream, s: nat): Word
    requires Locatable(slots, tloc, masks, contents) && s < |slots|
  {
    match slots[s]
    case Occupied(e, _) =>
      contents[tloc[Key(e)].bin] ^ SlotPad(tloc, masks, contents, prng, slots[s])
    case Empty => empties(EmptyBefore(slots, s))
  }

  /** The pad loop at relaxed_opprf.cpp lines 121-125: a fresh generator
      seeded with `seed` is drawn `functionId + 1` times and the last output
      is kept. */
  method DrawPad(prng: Prng, seed: Block, functionId: nat) returns (pad: Word)
    ensures pad == prng(seed, functionId)
  {
    pad := 0;
    var j := 0;
    while j <= functionId
      invariant j <= functionId + 1
      invariant j > 0 ==> pad == prng(seed, j - 1)
    {
      pad := prng(seed, j);
      j := j + 1;
    }
  }

  /** The filter loop at relaxed_opprf.cpp lines 106-130. A non-empty stash
      is only reported (`stashReported`); the filter is built regardless. */
  method GarbleFilter(slots: seq<CuckooSlot>, stashSize: nat, tloc: map<Key, Loc>, masks: seq<seq<Block>>,
                      contents: seq<Word>, prng: Prng, empties: WordStream)
    returns (filter: seq<Word>, stashReported: bool)
    requires Locatable(slots, tloc, masks, contents)
    ensures stashReported <==> stashSize > 0
    ensures |filter| == |slots|
    ensures forall s :: 0 <= s < |slots| ==> filter[s] == FilterEntry(slots, tloc, masks, contents, prng, empties, s)
  {
    stashReported := stashSize > 0;
    filter := [];
    var drawn := 0;
    for i := 0 to |slots|
      invariant drawn == EmptyBefore(slots, i)
      invariant |filter| == i
      invariant forall s :: 0 <= s < i ==> filter[s] == FilterEntry(slots, tloc, masks, contents, prng, empties, s)
    {
      var entry: Word;
      if slots[i].Occupied? {
        var l := tloc[Key(slots[i].element)];
        var pad := DrawPad(prng, masks[l.bin][l.index], slots[i].functionId);
        entry := contents[l.bin] ^ pad;
      } else {
        entry := empties(drawn);
        drawn := drawn + 1;
      }
      assert entry == FilterEntry(slots, tloc, masks, contents, prng, empties, i);
      filter := filter + [entry];
    }
  }

  /** Lines 89-130 together: the filter over the helper's own simple table.
      The cuckoo table's slots hold only elements that were inserted, and the
      OT masks are shaped like the simple table. Each occupied slot ends up
      masking the value of a bin that really holds its element. */
  method NonLeaderFilter(simpleTable: seq<seq<Word>>, masks: seq<seq<Block>>, contents: seq<Word>,
                         slots: seq<CuckooSlot>, stashSize: nat, prng: Prng, empties: WordStream)
    returns (filter: seq<Word>, stashReported: bool)
    requires |masks| == |simpleTable| && |contents| == |simpleTable|
    requires forall b :: 0 <= b < |simpleTable| ==> |masks[b]| == |simpleTable[b]|
    requires forall s :: 0 <= s < |slots| && slots[s].Occupied? ==> slots[s].element in Flatten(simpleTable)
    ensures stashReported <==> stashSize > 0
    ensures |filter| == |slots|
    ensures Locatable(slots, LocationIndex(simpleTable), masks, contents)
    ensures forall s :: 0 <= s < |slots| ==>
              filter[s] == FilterEntry(slots, LocationIndex(simpleTable), masks, contents, prng, empties, s)
    ensures forall s :: 0 <= s < |slots| && slots[s].Occupied? ==>
              var l := LocationIndex(simpleTable)[Key(slots[s].element)];
              simpleTable[l.bin][l.index] == slots[s].element
  {
    var tloc, filterInputs := BuildLocationIndex(simpleTable);
    LocationIndexCorrect(simpleTable);
    forall k | k in tloc
      ensures ValidLoc(tloc[k], masks, contents)
    {
      assert Key(k.element) == k;
    }
    filter, stashReported := GarbleFilter(slots, stashSize, tloc, masks, contents, prng, empties);
  }

  /** The value the helper reads for bin `i`: its own mask's low half XOR
      the table slot selected by hashing that half with the bin's nonce. */
  function ResolvedValue(sha1: Sha1, masks: seq<Block>, nonces: seq<Block>, table: seq<Word>, i: nat): Word
    requires i < |masks| && i < |nonces| && |table| == Ts * |masks|
  {
    Low64(masks[i]) ^ table[Ts * i + SlotOf(sha1, masks[i], nonces[i])]
  }

  /** The resolver loop at relaxed_opprf.cpp lines 149-159: the slot address
      of bin `i` is the low two bits of the position hash of the mask's low
      half under the bin's nonce. */
  method Resolve(sha1: Sha1, masks: seq<Block>, nonces: seq<Block>, table: seq<Word>) returns (actual: seq<Word>)
    requires |nonces| == |masks| && |table| == Ts * |masks|
    ensures |actual| == |masks|
    ensures forall i :: 0 <= i < |masks| ==> actual[i] == ResolvedValue(sha1, masks, nonces, table, i)
  {
    actual := [];
    for i := 0 to |masks|
      invariant |actual| == i
      invariant forall k :: 0 <= k < i ==> actual[k] == ResolvedValue(sha1, masks, nonces, table, k)
    {
      var bitAddress := SlotOf(sha1, masks[i], nonces[i]);
      RowIndexInRange(i, |masks|, bitAddress);
      var entry := table[Ts * i + bitAddress];
      actual := actual + [Low64(masks[i]) ^ entry];
    }
  }
}
