/** The round-robin split of the `np - 1` peer connections among the worker
    threads of `run_relaxed_opprf`: worker `tid` of `nthreads` serves peers
    `tid, tid + nthreads, tid + 2 * nthreads, ...` below `np - 1`. Only the
    index arithmetic and the per-peer writes are modelled; the threads run
    here one after the other, which gives the same result because their
    writes are disjoint. */
module PeerPartition {
  import opened ModArith

  /** Number of peer connections, `np - 1`, as a count (none when `np <= 1`). */
  function PeerCount(np: int): nat
  {
    if np <= 1 then 0 else np - 1
  }

  /** `start, start + stride, ...` below `bound`, in increasing order. */
  function Strided(start: nat, stride: nat, bound: nat): seq<nat>
    requires stride > 0
    decreases bound - start
  {
    if start >= bound then [] else [start] + Strided(start + stride, stride, bound)
  }

  /** The peers of worker `tid`: the loop `for (i = tid; i < np - 1; i += nthreads)`
      of `multi_oprf_thread` and `multi_hint_thread`. */
  method WorkerPeers(tid: nat, nthreads: nat, np: int) returns (peers: seq<nat>)
    requires tid < nthreads
    ensures peers == Strided(tid, nthreads, PeerCount(np))
  {
    peers := [];
    var i := tid;
    while i < np - 1
      invariant tid <= i
      invariant peers + Strided(i, nthreads, PeerCount(np)) == Strided(tid, nthreads, PeerCount(np))
      decreases np - 1 - i
    {
      assert Strided(i, nthreads, PeerCount(np)) == [i] + Strided(i + nthreads, nthreads, PeerCount(np));
      assert peers + [i] + Strided(i + nthreads, nthreads, PeerCount(np))
          == peers + ([i] + Strided(i + nthreads, nthreads, PeerCount(np)));
      peers := peers + [i];
      i := i + nthreads;
    }
  }

  /** The strided sequence holds exactly the values from `start` below
      `bound` that are a multiple of `stride` away from `start`. */
  lemma {:induction false} StridedMembers(start: nat, stride: nat, bound: nat, p: nat)
    requires stride > 0
    ensures p in Strided(start, stride, bound) <==> start <= p < bound && (p - start) % stride == 0
    decreases bound - start
  {
    if start < bound {
      StridedMembers(start + stride, stride, bound, p);
      if p >= start + stride {
        assert (p - start) % stride == (p - (start + stride)) % stride by {
          ModShift(p - (start + stride), stride);
        }
      } else if start < p {
        assert (p - start) % stride == p - start;
      }
    }
  }

  /** The strided sequence is strictly increasing, so it visits no peer twice. */
  lemma {:induction false} StridedIncreasing(start: nat, stride: nat, bound: nat)
    requires stride > 0
    ensures forall a, b :: 0 <= a < b < |Strided(start, stride, bound)| ==>
              Strided(start, stride, bound)[a] < Strided(start, stride, bound)[b]
    ensures forall a :: 0 <= a < |Strided(start, stride, bound)| ==> start <= Strided(start, stride, bound)[a]
    decreases bound - start
  {
    if start < bound {
      StridedIncreasing(start + stride, stride, bound);
      var rest := Strided(start + stride, stride, bound);
      assert Strided(start, stride, bound) == [start] + rest;
    }
  }

  /** A value `tid` below the modulus is the remainder of exactly the values
      that are a multiple of the modulus above it. */
  lemma ModResidue(p: nat, tid: nat, n: nat)
    requires tid < n
    ensures (tid <= p && (p - tid) % n == 0) <==> p % n == tid
  {
    var q, r := p / n, p % n;
    assert p == q * n + r;
    if tid <= p && (p - tid) % n == 0 {
      var k := (p - tid) / n;
      assert p == k * n + tid;
      ModUnique(p, n, k, tid);
    }
    if p % n == tid {
      assert p - tid == q * n;
      ModUnique(p - tid, n, q, 0);
    }
  }

  /** Worker `tid` serves exactly the peers `p < np - 1` with
      `p % nthreads == tid`. */
  lemma WorkerServes(tid: nat, nthreads: nat, np: int, p: nat)
    requires tid < nthreads
    ensures p in Strided(tid, nthreads, PeerCount(np)) <==> p < PeerCount(np) && p % nthreads == tid
  {
    StridedMembers(tid, nthreads, PeerCount(np), p);
    ModResidue(p, tid, nthreads);
  }

  /** The workers partition the peers: every peer `p < np - 1` is served by
      worker `p % nthreads` and by no other. */
  lemma WorkersPartitionPeers(nthreads: nat, np: int, p: nat, tid: nat)
    requires tid < nthreads && p < PeerCount(np)
    ensures p in Strided(tid, nthreads, PeerCount(np)) <==> tid == p % nthreads
  {
    WorkerServes(tid, nthreads, np, p);
  }

  /** One worker's loop body `results[i] = job(i)` over its peers
      (`masks_with_dummies[i] = ot_receiver(...)` or `OpprgPsiLeader(sub_bins[i], ...)`):
      it writes exactly its own peers' entries. */
  method RunWorker<T>(tid: nat, nthreads: nat, np: int, job: nat -> T, results: array<T>)
    requires tid < nthreads && results.Length == PeerCount(np)
    modifies results
    ensures forall p :: 0 <= p < results.Length ==>
              results[p] == (if p % nthreads == tid then job(p) else old(results[p]))
  {
    var i := tid;
    while i < np - 1
      invariant tid <= i && (i - tid) % nthreads == 0
      invariant forall p :: 0 <= p < results.Length ==>
                  results[p] == (if p % nthreads == tid && p < i then job(p) else old(results[p]))
      decreases np - 1 - i
    {
      ModResidue(i, tid, nthreads);
      forall p | i < p < i + nthreads
        ensures p % nthreads != tid
      {
        ModResidue(p, tid, nthreads);
        assert p - tid == (i - tid) + (p - i);
        GapHasNoResidue(i - tid, p - i, nthreads);
      }
      results[i] := job(i);
      assert (i + nthreads - tid) % nthreads == 0 by {
        ModShift(i - tid, nthreads);
      }
      i := i + nthreads;
    }
    forall p | 0 <= p < results.Length && p % nthreads == tid
      ensures p < i
    {
    }
  }

  /** Between two consecutive multiples of `n` there is no multiple of `n`. */
  lemma GapHasNoResidue(a: nat, d: nat, n: nat)
    requires n > 0 && a % n == 0 && 0 < d < n
    ensures (a + d) % n != 0
  {
    var k := a / n;
    assert a == k * n;
    ModUnique(a + d, n, k, d);
  }

  /** One phase of `run_relaxed_opprf` (lines 295-302 and 309-315): all
      workers `0..nthreads)` run their loops; afterwards every peer's entry
      holds its job's result. */
  method RunPhase<T>(nthreads: nat, np: int, job: nat -> T, results: array<T>)
    requires nthreads > 0 && results.Length == PeerCount(np)
    modifies results
    ensures forall p :: 0 <= p < results.Length ==> results[p] == job(p)
  {
    for tid := 0 to nthreads
      invariant forall p :: 0 <= p < results.Length ==>
                  results[p] == (if p % nthreads < tid then job(p) else old(results[p]))
    {
      RunWorker(tid, nthreads, np, job, results);
    }
  }
}
