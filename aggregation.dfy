/** The last step of `run_relaxed_opprf`. The leader maps every peer's value
    for a bin into the prime field and adds the values up there; a helper
    only maps its own values into the field. The field type is not modelled:
    its elements are the remainders by a modulus `p` the caller supplies
    (the characteristic), `GetElement(x)` is `x mod p`, `+` is addition
    mod `p`, and `.elem` gives the remainder back as a 64-bit word. */
module FieldAggregation {
  import opened ModArith

  /** Largest characteristic whose elements fit the 64-bit `.elem`. */
  const WordRange: nat := 0x1_0000_0000_0000_0000

  /** A `uint64_t` read as the integer it denotes, which is how the field
      constructor sees it. */
  type U64 = x: nat | x < WordRange

  /** `field->GetElement(x)`. */
  function FieldElement(x: U64, p: nat): (e: nat)
    requires p > 0
    ensures e < p
  {
    x % p
  }

  /** Field addition. */
  function FieldAdd(a: nat, b: nat, p: nat): nat
    requires p > 0
  {
    (a + b) % p
  }

  /** `.elem`: an element below the characteristic as a 64-bit word. */
  function Elem(e: nat): U64
    requires e < WordRange
  {
    e
  }

  /** The field sum, in peer order, of column `j` of the first `k` rows,
      starting from row 0 as `field_bins` does. */
  function ColumnSum(rows: seq<seq<U64>>, j: nat, k: nat, p: nat): (e: nat)
    requires p > 0 && 1 <= k <= |rows|
    requires forall i :: 0 <= i < |rows| ==> j < |rows[i]|
    ensures e < p
  {
    if k == 1 then FieldElement(rows[0][j], p)
    else FieldAdd(ColumnSum(rows, j, k - 1, p), FieldElement(rows[k - 1][j], p), p)
  }

  /** The integer sum of column `j` of the first `k` rows. */
  function IntColumnSum(rows: seq<seq<U64>>, j: nat, k: nat): nat
    requires k <= |rows|
    requires forall i :: 0 <= i < |rows| ==> j < |rows[i]|
  {
    if k == 0 then 0 else IntColumnSum(rows, j, k - 1) + rows[k - 1][j] 
  }

  /** Summing in the field is the integer sum reduced once at the end. */
  lemma {:induction false} ColumnSumIsModularSum(rows: seq<seq<U64>>, j: nat, k: nat, p: nat)
    requires p > 0 && 1 <= k <= |rows|
    requires forall i :: 0 <= i < |rows| ==> j < |rows[i]|
    ensures ColumnSum(rows, j, k, p) == IntColumnSum(rows, j, k) % p
  {
    if k > 1 {
      ColumnSumIsModularSum(rows, j, k - 1, p);
      var s := IntColumnSum(rows, j, k - 1);
      var x := rows[k - 1][j] ;
      calc {
        ColumnSum(rows, j, k, p);
        (s % p + x % p) % p;
        { ModAddReduced(x, s % p, p); }
        (s % p + x) % p;
        { ModAddReduced(s, x, p); }
        (s + x) % p;
      }
    }
  }

  /** The leader's aggregation (lines 323-339), with `bins` zeroed first
      (lines 284-287): `field_bins[j]` starts as `GetElement(sub_bins[0][j])`,
      every further peer's value is added in the field, and the last loop
      writes `bins[j] = field_bins[j].elem` once per peer. Each output is
      the integer sum of the peers' values for the bin, modulo `p`. The
      code reads `sub_bins[0]`, so at least one peer is needed. */
  method AggregateLeader(subBins: seq<seq<U64>>, nbins: nat, p: nat) returns (bins: seq<U64>)
    requires 0 < p <= WordRange && |subBins| >= 1
    requires forall i :: 0 <= i < |subBins| ==> |subBins[i]| == nbins
    ensures |bins| == nbins
    ensures forall j :: 0 <= j < nbins ==> bins[j] == IntColumnSum(subBins, j, |subBins|) % p
  {
    var out := new U64[nbins];
    for j := 0 to nbins
      invariant forall k :: 0 <= k < j ==> out[k] == 0
    {
      out[j] := 0;
    }
    var fieldBins := new nat[nbins];
    for j := 0 to nbins
      modifies fieldBins
      invariant forall k :: 0 <= k < j ==> fieldBins[k] == ColumnSum(subBins, k, 1, p)
    {
      fieldBins[j] := FieldElement(subBins[0][j], p);
    }
    for i := 1 to |subBins|
      modifies fieldBins
      invariant forall k :: 0 <= k < nbins ==> fieldBins[k] == ColumnSum(subBins, k, i, p)
    {
      for j := 0 to nbins
        modifies fieldBins
        invariant forall k :: 0 <= k < j ==> fieldBins[k] == ColumnSum(subBins, k, i + 1, p)
        invariant forall k :: j <= k < nbins ==> fieldBins[k] == ColumnSum(subBins, k, i, p)
      {
        fieldBins[j] := FieldAdd(fieldBins[j], FieldElement(subBins[i][j], p), p);
      }
    }
    for i := 0 to |subBins|
      modifies out
      invariant forall k :: 0 <= k < nbins ==>
                  out[k] == if i == 0 then 0 else Elem(ColumnSum(subBins, k, |subBins|, p))
    {
      for j := 0 to nbins
        modifies out
        invariant forall k :: 0 <= k < j ==> out[k] == Elem(ColumnSum(subBins, k, |subBins|, p))
        invariant forall k :: j <= k < nbins ==>
                    out[k] == if i == 0 then 0 else Elem(ColumnSum(subBins, k, |subBins|, p))
      {
        out[j] := Elem(fieldBins[j]);
      }
    }
    bins := out[..];
    forall j | 0 <= j < nbins
      ensures bins[j] == IntColumnSum(subBins, j, |subBins|) % p
    {
      ColumnSumIsModularSum(subBins, j, |subBins|, p);
    }
  }

  /** A helper's output (lines 354-362): each of its bin values reduced into
      the field and unwrapped again. */
  method ReduceHelper(actual: seq<U64>, p: nat) returns (bins: seq<U64>)
    requires 0 < p <= WordRange
    ensures |bins| == |actual|
    ensures forall j :: 0 <= j < |actual| ==> bins[j] == actual[j] % p
  {
    var fieldBins := new nat[|actual|];
    for j := 0 to |actual|
      invariant forall k :: 0 <= k < j ==> fieldBins[k] == actual[k] % p
    {
      fieldBins[j] := FieldElement(actual[j], p);
    }
    var out := new U64[|actual|];
    for j := 0 to |actual|
      modifies out
      invariant forall k :: 0 <= k < j ==> out[k] == actual[k] % p
    {
      out[j] := Elem(fieldBins[j]);
    }
    bins := out[..];
  }

  /** The values a helper outputs are already field elements: reducing them
      again, as the leader does with every peer value, changes nothing. */
  lemma ReducedIsCanonical(x: U64, p: nat)
    requires 0 < p <= WordRange
    ensures FieldElement(Elem(FieldElement(x, p)), p) == FieldElement(x, p)
  {
    var e := FieldElement(x, p);
    assert Elem(e)  == e;
    ModUnique(e, p, 0, e);
  }
}
