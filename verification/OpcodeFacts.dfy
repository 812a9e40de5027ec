/** Weights, counts and merged counts of the profiler, in numbers of instructions. */
module OpcodeFacts {
  import opened Wrappers
  import opened Opcodeprof
  import opened OpcodeCounting

  // ---- widths

  lemma WrapExact(x: nat)
    ensures W32(x) < 4294967296 && W64(x) < 18446744073709551616
    ensures (W32(x) == x <==> x < 4294967296) && (W64(x) == x <==> x < 18446744073709551616)
    ensures W32(x + 4294967296) == W32(x) && W64(x + 18446744073709551616) == W64(x)
  {
  }

  // ---- blocks

  /** The places of instructions with ids in the range. */
  function Ranged(block: seq<InsInfo>, knobs: Knobs): set<nat> {
    set i: nat | i < |block| && knobs.minIns <= block[i].insId <= knobs.maxIns
  }

  /** The places of instructions with the key. */
  function Keyed(block: seq<InsInfo>, k: Key): set<nat> {
    set i: nat | i < |block| && block[i].key == k
  }

  lemma {:induction false} InRangeExact(block: seq<InsInfo>, knobs: Knobs)
    ensures InRange(block, knobs) == |Ranged(block, knobs)|
    decreases |block|
  {
    if block != [] {
      var n := |block| - 1;
      InRangeExact(block[..n], knobs);
      var s, t := Ranged(block[..n], knobs), Ranged(block, knobs);
      if knobs.minIns <= block[n].insId <= knobs.maxIns {
        assert t == s + {n};
      } else {
        assert t == s;
      }
    }
  }

  /** What a run through a block adds to its counters: an instruction counts as often as it
      stands in the block and in the ranges, a block once if it has any. */
  lemma WeightsExact(b: nat, block: seq<InsInfo>, perIns: bool, knobs: Knobs)
    ensures BlockWeight(perIns)(b, block) == if perIns then |block| else if block == [] then 0 else 1
    ensures HliWeight(perIns, knobs)(b, block) ==
              if !(knobs.minBlock <= b <= knobs.maxBlock) || block == [] then 0
              else if perIns then |Ranged(block, knobs)| else 1
  {
    InRangeExact(block, knobs);
  }

  lemma OneMore(n: nat, f: nat)
    ensures (n + 1) * f == n * f + f
  {
  }

  lemma KeyedStep(block: seq<InsInfo>, k: Key)
    requires block != []
    ensures var n := |block| - 1;
            |Keyed(block, k)| == |Keyed(block[..n], k)| + if block[n].key == k then 1 else 0
  {
    var n := |block| - 1;
    var s, t := Keyed(block[..n], k), Keyed(block, k);
    if block[n].key == k {
      assert t == s + {n};
    } else {
      assert t == s;
    }
  }

  /** Each instruction of a block is counted once, with the frequency, at its own key. */
  lemma {:induction false} CountsExact(block: seq<InsInfo>, f: nat, k: Key)
    ensures Counts(block, f, Some(k)) == |Keyed(block, k)| * f
    ensures Counts(block, f, None) == |block| * f
    decreases |block|
  {
    hide Keyed;
    if block == [] {
      NoneKeyed(k);
    } else {
      var n := |block| - 1;
      CountsExact(block[..n], f, k);
      KeyedStep(block, k);
      OneMore(|Keyed(block[..n], k)|, f);
      OneMore(n, f);
    }
  }

  lemma NoneKeyed(k: Key)
    ensures Keyed([], k) == {}
  {
  }

  /** A counter that cannot be read adds nothing. */
  lemma BucketSumStep(buffer: Buffer, n: nat, record: nat)
    requires n < |buffer| && forall t | 0 <= t < |buffer| :: record < |buffer[t]|
    ensures BucketSum(buffer, 0, record) == 0
    ensures BucketSum(buffer, n + 1, record) == BucketSum(buffer, n, record) +
                                                match buffer[n][record]
                                                case Some(x) => x
                                                case None => 0
  {
  }

  // ---- all kernels

  /** The counts of all kernels, executed or not. */
  ghost function AllCounts(ks: seq<OpcodeprofKernelProfile>, perIns: bool, only: Option<Key>): nat
    requires forall i | 0 <= i < |ks| :: ks[i].Valid()
    reads ks
  {
    if ks == [] then 0
    else
      var last := ks[|ks| - 1];
      assert last.Valid();
      AllCounts(ks[..|ks| - 1], perIns, only) + KernelCounts(last.bblInfo, last.bblFreq, perIns, only)
  }

  /** The total of the kernel, wrapped at 64 bits, is not 0 by wrapping. */
  ghost predicate ZeroOnlyIfIdle(k: OpcodeprofKernelProfile, perIns: bool)
    requires k.Valid()
    reads k
  {
    var total := KernelCounts(k.bblInfo, k.bblFreq, perIns, None);
    total % 18446744073709551616 == 0 ==> total == 0
  }

  lemma {:induction false} CountsBelow(block: seq<InsInfo>, f: nat, k: Key)
    ensures Counts(block, f, Some(k)) <= Counts(block, f, None)
    decreases |block|
  {
    if block != [] {
      CountsBelow(block[..|block| - 1], f, k);
    }
  }

  lemma {:induction false} KernelCountsBelow(blocks: seq<seq<InsInfo>>, freqs: seq<nat>, perIns: bool, k: Key)
    requires |freqs| == |blocks|
    ensures KernelCounts(blocks, freqs, perIns, Some(k)) <= KernelCounts(blocks, freqs, perIns, None)
    decreases |blocks|
  {
    if blocks != [] {
      var n := |blocks| - 1;
      KernelCountsBelow(blocks[..n], freqs[..n], perIns, k);
      CountsBelow(blocks[n], InsFreq(blocks[n], freqs[n], perIns), k);
    }
  }

  lemma IdleHasNone(k: OpcodeprofKernelProfile, perIns: bool, only: Option<Key>)
    requires k.Valid() && KernelCounts(k.bblInfo, k.bblFreq, perIns, None) == 0
    ensures KernelCounts(k.bblInfo, k.bblFreq, perIns, only) == 0
  {
    if only.Some? {
      KernelCountsBelow(k.bblInfo, k.bblFreq, perIns, only.value);
    }
  }

  lemma {:induction false} MergedBelow(ks: seq<OpcodeprofKernelProfile>, perIns: bool, only: Option<Key>)
    requires forall i | 0 <= i < |ks| :: ks[i].Valid()
    ensures MergedCounts(ks, perIns, only) <= AllCounts(ks, perIns, only)
    decreases |ks|
  {
    hide KernelCounts;
    if ks != [] {
      MergedBelow(ks[..|ks| - 1], perIns, only);
    }
  }

  ghost predicate NothingLost(ks: seq<OpcodeprofKernelProfile>, perIns: bool)
    requires forall i | 0 <= i < |ks| :: ks[i].Valid()
    reads ks
  {
    forall only :: MergedCounts(ks, perIns, only) == AllCounts(ks, perIns, only)
  }

  lemma MergedOne(ks: seq<OpcodeprofKernelProfile>, perIns: bool, only: Option<Key>)
    requires ks != [] && (forall i | 0 <= i < |ks| :: ks[i].Valid()) && ZeroOnlyIfIdle(ks[|ks| - 1], perIns)
    ensures var n := |ks| - 1;
            MergedCounts(ks, perIns, only) == AllCounts(ks, perIns, only) <==>
              MergedCounts(ks[..n], perIns, only) == AllCounts(ks[..n], perIns, only)
  {
    hide KernelCounts;
    var last := ks[|ks| - 1];
    if !WasExecuted(last, perIns) {
      IdleHasNone(last, perIns, only);
    }
  }

  lemma LostStep(ks: seq<OpcodeprofKernelProfile>, perIns: bool)
    requires ks != [] && (forall i | 0 <= i < |ks| :: ks[i].Valid())
    ensures NothingLost(ks, perIns) <==>
              NothingLost(ks[..|ks| - 1], perIns) && ZeroOnlyIfIdle(ks[|ks| - 1], perIns)
  {
    hide KernelCounts;
    var n := |ks| - 1;
    if ZeroOnlyIfIdle(ks[n], perIns) {
      hide MergedCounts, AllCounts;
      forall only
        ensures MergedCounts(ks, perIns, only) == AllCounts(ks, perIns, only) <==>
                  MergedCounts(ks[..n], perIns, only) == AllCounts(ks[..n], perIns, only)
      {
        MergedOne(ks, perIns, only);
      }
    } else {
      MergedBelow(ks[..n], perIns, None);
      assert MergedCounts(ks, perIns, None) < AllCounts(ks, perIns, None);
    }
  }

  /** Leaving out kernels whose total is 0 leaves no count out, for all keys and in total,
      exactly when no kernel's total wraps to 0. */
  lemma {:induction false} MergedExactIff(ks: seq<OpcodeprofKernelProfile>, perIns: bool)
    requires forall i | 0 <= i < |ks| :: ks[i].Valid()
    ensures NothingLost(ks, perIns) <==> forall i | 0 <= i < |ks| :: ZeroOnlyIfIdle(ks[i], perIns)
    decreases |ks|
  {
    hide KernelCounts, ZeroOnlyIfIdle;
    if ks != [] {
      var n := |ks| - 1;
      assert forall i | 0 <= i < n :: ks[..n][i] == ks[i];
      MergedExactIff(ks[..n], perIns);
      LostStep(ks, perIns);
      hide NothingLost;
    }
  }
}
