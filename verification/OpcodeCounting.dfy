/** Where the counters are placed, what a run leaves in them, and that every way of
    counting gives the histogram of what was executed. */
module OpcodeCounting {
  import opened Wrappers
  import opened Opcodeprof

  // ---- placing counters

  datatype Ipoint = AtBlock(block: nat) | AtInstruction(block: nat, index: nat)

  /** Code that adds one to the counter `record` whenever control passes the point. */
  datatype Increment = Increment(point: Ipoint, record: nat)

  /** How much running through the block once adds to the record. */
  function Hits(placed: seq<Increment>, block: nat, record: nat): nat {
    if placed == [] then 0
    else
      var last := placed[|placed| - 1];
      Hits(placed[..|placed| - 1], block, record) + if last.point.block == block && last.record == record then 1 else 0
  }

  lemma HitsStep(placed: seq<Increment>, i: Increment, block: nat, record: nat)
    ensures Hits(placed + [i], block, record) == Hits(placed, block, record) + if i.point.block == block &&
            i.record == record then 1 else 0
  {
    assert (placed + [i])[..|placed|] == placed;
  }

  function Weight(size: nat, perIns: bool): nat {
    if size == 0 then 0 else if perIns then size else 1
  }

  /** Every block among the first `n` adds its weight to its own record. */
  ghost predicate Placed(placed: seq<Increment>, blocks: seq<seq<InsInfo>>, n: nat, weight: (nat, seq<InsInfo>) -> nat)
    requires n <= |blocks|
  {
    && (forall i | 0 <= i < |placed| :: placed[i].point.block < n)
    && (forall b: nat, r: nat | b < n :: Hits(placed, b, r) == if r == b then weight(b, blocks[b]) else 0)
  }

  lemma {:induction false} NoHits(placed: seq<Increment>, n: nat, r: nat)
    requires forall i | 0 <= i < |placed| :: placed[i].point.block < n
    ensures Hits(placed, n, r) == 0
    decreases |placed|
  {
    if placed != [] {
      NoHits(placed[..|placed| - 1], n, r);
    }
  }

  /** The placement for block `n` so far adds `w` to its record. */
  ghost predicate Placing(before: seq<Increment>, placed: seq<Increment>, n: nat, w: nat) {
    && (forall i | 0 <= i < |placed| :: placed[i].point.block <= n)
    && (forall b: nat, r: nat | b < n :: Hits(placed, b, r) == Hits(before, b, r))
    && (forall r: nat :: Hits(placed, n, r) == if r == n then w else 0)
  }

  lemma PlacingStart(placed: seq<Increment>, n: nat)
    requires forall i | 0 <= i < |placed| :: placed[i].point.block < n
    ensures Placing(placed, placed, n, 0)
  {
    forall r: nat {
      NoHits(placed, n, r);
    }
  }

  lemma PlacingStep(before: seq<Increment>, placed: seq<Increment>, n: nat, w: nat, p: Ipoint)
    requires Placing(before, placed, n, w) && p.block == n
    ensures Placing(before, placed + [Increment(p, n)], n, w + 1)
  {
    hide Hits;
    forall b: nat, r: nat {
      HitsStep(placed, Increment(p, n), b, r);
    }
  }

  lemma PlacingEnd(before: seq<Increment>, placed: seq<Increment>, blocks: seq<seq<InsInfo>>, n: nat,
                   weight: (nat, seq<InsInfo>) -> nat)
    requires n < |blocks| && Placed(before, blocks, n, weight) && Placing(before, placed, n, weight(n, blocks[n]))
    ensures Placed(placed, blocks, n + 1, weight)
  {
  }

  function BlockWeight(perIns: bool): (nat, seq<InsInfo>) -> nat {
    (b: nat, block: seq<InsInfo>) => Weight(|block|, perIns)
  }

  /** The counters of the thread-bucketed tool, one record to a block. */
  method OnKernelBuild(blocks: seq<seq<InsInfo>>, perIns: bool) returns (placed: seq<Increment>)
    ensures Placed(placed, blocks, |blocks|, BlockWeight(perIns))
  {
    hide Placing, Hits;
    placed := [];
    for n := 0 to |blocks|
      invariant Placed(placed, blocks, n, BlockWeight(perIns))
    {
      ghost var before := placed;
      PlacingStart(placed, n);
      if blocks[n] != [] {
        if !perIns || |blocks[n]| == 1 {
          PlacingStep(before, placed, n, 0, AtBlock(n));
          placed := placed + [Increment(AtBlock(n), n)];
        }
        if perIns && |blocks[n]| > 1 {
          for i := 0 to |blocks[n]|
            invariant Placing(before, placed, n, i)
          {
            PlacingStep(before, placed, n, i, AtInstruction(n, i));
            placed := placed + [Increment(AtInstruction(n, i), n)];
          }
        }
      }
      PlacingEnd(before, placed, blocks, n, BlockWeight(perIns));
    }
  }

  /** Ranges of block and instruction ids that are instrumented. */
  datatype Knobs = Knobs(minBlock: nat, maxBlock: nat, minIns: nat, maxIns: nat)

  function InRange(block: seq<InsInfo>, knobs: Knobs): nat {
    if block == [] then 0
    else
      InRange(block[..|block| - 1], knobs) +
      if knobs.minIns <= block[|block| - 1].insId <= knobs.maxIns then 1 else 0
  }

  function WeightInRange(b: nat, block: seq<InsInfo>, perIns: bool, knobs: Knobs): nat {
    if !(knobs.minBlock <= b <= knobs.maxBlock) then 0 else if perIns then InRange(block, knobs)
        else Weight(|block|, false)
  }

  function HliWeight(perIns: bool, knobs: Knobs): (nat, seq<InsInfo>) -> nat {
    (b: nat, block: seq<InsInfo>) => WeightInRange(b, block, perIns, knobs)
  }

  /** The counters of the tool that calls an increment function. */
  method OnKernelBuildHli(blocks: seq<seq<InsInfo>>, perIns: bool, knobs: Knobs) returns (placed: seq<Increment>)
    ensures Placed(placed, blocks, |blocks|, HliWeight(perIns, knobs))
  {
    hide Placing, Hits;
    placed := [];
    for n := 0 to |blocks|
      invariant Placed(placed, blocks, n, HliWeight(perIns, knobs))
    {
      ghost var before := placed;
      PlacingStart(placed, n);
      if knobs.minBlock <= n <= knobs.maxBlock && blocks[n] != [] {
        if perIns {
          for i := 0 to |blocks[n]|
            invariant Placing(before, placed, n, InRange(blocks[n][..i], knobs))
          {
            assert blocks[n][..i + 1][..i] == blocks[n][..i];
            if knobs.minIns <= blocks[n][i].insId <= knobs.maxIns {
              PlacingStep(before, placed, n, InRange(blocks[n][..i], knobs), AtInstruction(n, i));
              placed := placed + [Increment(AtInstruction(n, i), n)];
            }
          }
          assert blocks[n][..|blocks[n]|] == blocks[n];
        } else {
          PlacingStep(before, placed, n, 0, AtBlock(n));
          placed := placed + [Increment(AtBlock(n), n)];
        }
      }
      PlacingEnd(before, placed, blocks, n, HliWeight(perIns, knobs));
    }
  }

  ghost predicate WhollyInRange(b: nat, block: seq<InsInfo>, knobs: Knobs) {
    knobs.minBlock <= b <= knobs.maxBlock && forall i | 0 <= i < |block| ::
        knobs.minIns <= block[i].insId <= knobs.maxIns
  }

  /** The ranges leave nothing out. */
  ghost predicate FullRange(blocks: seq<seq<InsInfo>>, knobs: Knobs) {
    forall b | 0 <= b < |blocks| :: WhollyInRange(b, blocks[b], knobs)
  }

  lemma {:induction false} AllInRange(block: seq<InsInfo>, knobs: Knobs)
    requires forall i | 0 <= i < |block| :: knobs.minIns <= block[i].insId <= knobs.maxIns
    ensures InRange(block, knobs) == |block|
    decreases |block|
  {
    if block != [] {
      AllInRange(block[..|block| - 1], knobs);
    }
  }

  /** With full ranges both tools give blocks the same weight. */
  lemma SameWeights(placed: seq<Increment>, blocks: seq<seq<InsInfo>>, perIns: bool, knobs: Knobs)
    requires FullRange(blocks, knobs) && Placed(placed, blocks, |blocks|, HliWeight(perIns, knobs))
    ensures Placed(placed, blocks, |blocks|, BlockWeight(perIns))
  {
    forall b: nat | b < |blocks| ensures HliWeight(perIns, knobs)(b, blocks[b]) == BlockWeight(perIns)(b, blocks[b]) {
      assert WhollyInRange(b, blocks[b], knobs);
      AllInRange(blocks[b], knobs);
    }
  }

  // ---- running kernels

  /** A thread of the bucket runs through the block. */
  datatype Exec = Exec(bucket: nat, block: nat)

  /** How often the block is run through, by the threads of one bucket or by all. */
  ghost function Occurrences(d: seq<Exec>, bucket: Option<nat>, block: nat): nat {
    if d == [] then 0
    else
      var last := d[|d| - 1];
      Occurrences(d[..|d| - 1], bucket, block) + if last.block == block &&
          (bucket == None || bucket == Some(last.bucket)) then 1 else 0
  }

  /** A product, kept from the solver's arithmetic by the laws below. */
  function Times(w: nat, n: nat): nat {
    w * n
  }

  lemma TimesLaws(w: nat, x: nat, y: nat)
    ensures Times(w, 0) == 0 && Times(w, 1) == w && Times(w, x + y) == Times(w, x) + Times(w, y)
  {
  }

  /** What a dispatch leaves in the 32-bit counter of a bucket and record that was
      zero before. */
  ghost function Counter(placed: seq<Increment>, d: seq<Exec>, bucket: nat, record: nat): nat {
    if d == [] then 0
    else
      var last := d[|d| - 1];
      W32(Counter(placed, d[..|d| - 1], bucket, record) + if last.bucket == bucket then Hits(placed, last.block, record)
          else 0)
  }

  /** The kernel has the blocks that are run, and the tool the buckets. */
  ghost predicate Proper(d: seq<Exec>, blocks: nat, buckets: nat) {
    forall i | 0 <= i < |d| :: d[i].block < blocks && d[i].bucket < buckets
  }

  lemma WrapsNothing()
    ensures W32(0) == 0 && W64(0) == 0
  {
  }

  lemma Wrap32Sum(a: nat, b: nat)
    ensures W32(W32(a) + b) == W32(a + b)
  {
    Wrap32Shift(W32(a) + b, a / 0x1_0000_0000);
  }

  lemma {:induction false} Wrap32Shift(x: nat, q: nat)
    ensures W32(x + q * 0x1_0000_0000) == W32(x)
    decreases q
  {
    if q > 0 {
      Wrap32Shift(x, q - 1);
      assert x + q * 0x1_0000_0000 == (x + (q - 1) * 0x1_0000_0000) + 0x1_0000_0000;
    }
  }

  /** The counter holds the weight of the block for every time it was run, wrapped. */
  lemma {:induction false} CounterCounts(placed: seq<Increment>, blocks: seq<seq<InsInfo>>, perIns: bool, d: seq<Exec>,
                                         buckets: nat, t: nat, b: nat)
    requires Placed(placed, blocks, |blocks|, BlockWeight(perIns)) && Proper(d, |blocks|, buckets) && b < |blocks|
    ensures Counter(placed, d, t, b) == W32(Times(Weight(|blocks[b]|, perIns), Occurrences(d, Some(t), b)))
    decreases |d|
  {
    hide Times, W32;
    var w := Weight(|blocks[b]|, perIns);
    if d == [] {
      TimesLaws(w, 0, 0);
      WrapsNothing();
    } else {
      var n := |d| - 1;
      CounterCounts(placed, blocks, perIns, d[..n], buckets, t, b);
      var before := Occurrences(d[..n], Some(t), b);
      TimesLaws(w, before, 1);
      assert Hits(placed, d[n].block, b) == if d[n].block == b then w else 0;
      Wrap32Sum(Times(w, before), if d[n].bucket == t && d[n].block == b then w else 0);
    }
  }

  // ---- reading the counters

  /** A record read from the buffer, or nothing when it cannot be read. */
  type Buffer = seq<seq<Option<nat>>>

  function Readable(r: Option<nat>): nat {
    if r.Some? then r.value else 0
  }

  /** The first `n` buckets of a record added up. */
  ghost function BucketSum(buffer: Buffer, n: nat, record: nat): nat
    requires n <= |buffer| && forall t | 0 <= t < |buffer| :: record < |buffer[t]|
  {
    if n == 0 then 0 else BucketSum(buffer, n - 1, record) + Readable(buffer[n - 1][record])
  }

  /** Adds every bucket of every record to the profile of its block. */
  method OnKernelComplete(profile: OpcodeprofKernelProfile, buffer: Buffer, enabled: bool)
    requires profile.Valid() && forall t | 0 <= t < |buffer| :: |buffer[t]| == |profile.bblInfo|
    modifies profile`bblFreq
    ensures profile.Valid()
    ensures forall b | 0 <= b < |profile.bblFreq| ::
              profile.bblFreq[b] == if enabled then W64(old(profile.bblFreq[b]) + BucketSum(buffer, |buffer|, b))
                  else old(profile.bblFreq[b])
  {
    if !enabled {
      return;
    }
    hide W64;
    ghost var before := profile.bblFreq;
    for b := 0 to |profile.bblInfo|
      invariant profile.Valid()
      invariant forall j | 0 <= j < b :: profile.bblFreq[j] == W64(before[j] + BucketSum(buffer, |buffer|, j))
      invariant forall j | b <= j < |before| :: profile.bblFreq[j] == before[j]
    {
      CompleteRecord(profile, buffer, b);
    }
  }

  method CompleteRecord(profile: OpcodeprofKernelProfile, buffer: Buffer, b: nat)
    requires profile.Valid() && b < |profile.bblInfo| && forall t | 0 <= t < |buffer| ::
              |buffer[t]| == |profile.bblInfo|
    modifies profile`bblFreq
    ensures profile.Valid()
    ensures profile.bblFreq == old(profile.bblFreq)[b := W64(old(profile.bblFreq[b]) + BucketSum(buffer, |buffer|, b))]
  {
    ghost var first := profile.bblFreq[b];
    for t := 0 to |buffer|
      invariant profile.Valid()
      invariant profile.bblFreq == old(profile.bblFreq)[b := W64(first + BucketSum(buffer, t, b))]
    {
      if buffer[t][b].Some? {
        WrapTwice(first, BucketSum(buffer, t, b), buffer[t][b].value, W64(profile.bblFreq[b] + buffer[t][b].value));
        profile.Accumulate(buffer[t][b].value, b);
      }
    }
  }

  /** The buffer holds what the dispatch left in the counters. */
  ghost predicate LeftBy(buffer: Buffer, placed: seq<Increment>, d: seq<Exec>, blocks: nat) {
    && (forall t | 0 <= t < |buffer| :: |buffer[t]| == blocks)
    && (forall t, b | 0 <= t < |buffer| && 0 <= b < blocks :: buffer[t][b] == Some(Counter(placed, d, t, b)))
  }

  /** The counters of a record in the first `n` buckets, added up. */
  ghost function Sharded(placed: seq<Increment>, d: seq<Exec>, n: nat, b: nat): nat {
    if n == 0 then 0 else Sharded(placed, d, n - 1, b) + Counter(placed, d, n - 1, b)
  }

  lemma {:induction false} BucketSumIsSharded(buffer: Buffer, placed: seq<Increment>, d: seq<Exec>, blocks: nat, n: nat,
                                              b: nat)
    requires LeftBy(buffer, placed, d, blocks) && b < blocks && n <= |buffer|
    ensures BucketSum(buffer, n, b) == Sharded(placed, d, n, b)
    decreases n
  {
    if n > 0 {
      BucketSumIsSharded(buffer, placed, d, blocks, n - 1, b);
    }
  }

  /** The sum of the counters over all dispatches. */
  ghost function RunSum(placed: seq<Increment>, ds: seq<seq<Exec>>, buckets: nat, b: nat): nat {
    if ds == [] then 0 else RunSum(placed, ds[..|ds| - 1], buckets, b) + Sharded(placed, ds[|ds| - 1], buckets, b)
  }

  /** Completes every dispatch of a run; `ds` is what the dispatches ran. */
  method CompleteRun(profile: OpcodeprofKernelProfile, ghost placed: seq<Increment>, buckets: nat, buffers: seq<Buffer>,
                     ghost ds: seq<seq<Exec>>)
    requires profile.Valid() && (forall b | 0 <= b < |profile.bblFreq| :: profile.bblFreq[b] == 0) && |ds| == |buffers|
    requires forall n | 0 <= n < |ds| :: |buffers[n]| == buckets && LeftBy(buffers[n], placed, ds[n], |profile.bblInfo|)
    modifies profile`bblFreq
    ensures profile.Valid()
    ensures forall b | 0 <= b < |profile.bblFreq| :: profile.bblFreq[b] == W64(RunSum(placed, ds, buckets, b))
  {
    hide W64;
    WrapIdempotent(0);
    assert ds[..0] == [];
    for n := 0 to |buffers|
      invariant profile.Valid()
      invariant forall b | 0 <= b < |profile.bblFreq| :: profile.bblFreq[b] == W64(RunSum(placed, ds[..n], buckets, b))
    {
      ghost var before := profile.bblFreq;
      OnKernelComplete(profile, buffers[n], true);
      forall b | 0 <= b < |profile.bblFreq| ensures profile.bblFreq[b] == W64(RunSum(placed, ds[..n + 1], buckets, b)) {
        BucketSumIsSharded(buffers[n], placed, ds[n], |profile.bblInfo|, buckets, b);
        WrapSum(RunSum(placed, ds[..n], buckets, b), Sharded(placed, ds[n], buckets, b));
        assert ds[..n + 1][..n] == ds[..n];
      }
    }
    assert ds[..|ds|] == ds;
  }

  // ---- what was executed

  /** How often the block was run through in all dispatches. */
  ghost function RunCount(ds: seq<seq<Exec>>, b: nat): nat {
    if ds == [] then 0 else RunCount(ds[..|ds| - 1], b) + Occurrences(ds[|ds| - 1], None, b)
  }

  ghost predicate ProperRun(ds: seq<seq<Exec>>, blocks: nat, buckets: nat) {
    forall n | 0 <= n < |ds| :: Proper(ds[n], blocks, buckets)
  }

  /** No counter of the dispatch reaches 2 to the 32nd. */
  ghost predicate Fits(d: seq<Exec>, w: nat, buckets: nat, b: nat) {
    forall t: nat | t < buckets :: Times(w, Occurrences(d, Some(t), b)) < TWO_32
  }

  ghost predicate RunFits(ds: seq<seq<Exec>>, w: nat, buckets: nat, b: nat) {
    forall n | 0 <= n < |ds| :: Fits(ds[n], w, buckets, b)
  }

  /** The occurrences in the first `n` buckets. */
  ghost function BucketOccurrences(d: seq<Exec>, n: nat, b: nat): nat {
    if n == 0 then 0 else BucketOccurrences(d, n - 1, b) + Occurrences(d, Some(n - 1), b)
  }

  lemma {:induction false} BucketOccurrencesStep(d: seq<Exec>, e: Exec, n: nat, b: nat)
    ensures BucketOccurrences(d + [e], n, b) == BucketOccurrences(d, n, b) + if e.block == b &&
              e.bucket < n then 1 else 0
    decreases n
  {
    if n > 0 {
      BucketOccurrencesStep(d, e, n - 1, b);
      assert (d + [e])[..|d|] == d;
    }
  }

  /** Every run through a block is counted in exactly one bucket. */
  lemma {:induction false} BucketsPartition(d: seq<Exec>, blocks: nat, buckets: nat, b: nat)
    requires Proper(d, blocks, buckets)
    ensures BucketOccurrences(d, buckets, b) == Occurrences(d, None, b)
    decreases |d|
  {
    if d == [] {
      NoOccurrences(buckets, b);
    } else {
      var n := |d| - 1;
      BucketsPartition(d[..n], blocks, buckets, b);
      BucketOccurrencesStep(d[..n], d[n], buckets, b);
      assert d[..n] + [d[n]] == d;
    }
  }

  lemma {:induction false} NoOccurrences(n: nat, b: nat)
    ensures BucketOccurrences([], n, b) == 0
    decreases n
  {
    if n > 0 {
      NoOccurrences(n - 1, b);
    }
  }

  lemma WrapsLess(x: nat)
    ensures W32(x) <= x && (W32(x) == x <==> x < TWO_32)
  {
  }

  lemma {:induction false} ShardedLoss(placed: seq<Increment>, blocks: seq<seq<InsInfo>>, perIns: bool, d: seq<Exec>,
                                       buckets: nat, n: nat, b: nat)
    requires Placed(placed, blocks, |blocks|, BlockWeight(perIns)) && Proper(d, |blocks|, buckets) && b < |blocks|
    ensures var w := Weight(|blocks[b]|, perIns);
            && Sharded(placed, d, n, b) <= Times(w, BucketOccurrences(d, n, b))
            && (Sharded(placed, d, n, b) == Times(w, BucketOccurrences(d, n, b)) <==> Fits(d, w, n, b))
    decreases n
  {
    hide Times, W32, W64;
    var w := Weight(|blocks[b]|, perIns);
    if n == 0 {
      TimesLaws(w, 0, 0);
    } else {
      ShardedLoss(placed, blocks, perIns, d, buckets, n - 1, b);
      CounterCounts(placed, blocks, perIns, d, buckets, n - 1, b);
      var x, y := BucketOccurrences(d, n - 1, b), Occurrences(d, Some(n - 1), b);
      TimesLaws(w, x, y);
      assert Fits(d, w, n, b) <==> Fits(d, w, n - 1, b) && Times(w, y) < TWO_32;
      WrapsLess(Times(w, y));
    }
  }

  /** The counters of a block add up to its weight for every time it was run, exactly
      when no 32-bit counter wraps in any dispatch. */
  lemma {:induction false} RunSumExactIff(placed: seq<Increment>, blocks: seq<seq<InsInfo>>, perIns: bool,
                                          ds: seq<seq<Exec>>,
                                          buckets: nat, b: nat)
    requires Placed(placed, blocks, |blocks|, BlockWeight(perIns)) && ProperRun(ds, |blocks|, buckets) && b < |blocks|
    ensures var w := Weight(|blocks[b]|, perIns);
            && RunSum(placed, ds, buckets, b) <= Times(w, RunCount(ds, b))
            && (RunSum(placed, ds, buckets, b) == Times(w, RunCount(ds, b)) <==> RunFits(ds, w, buckets, b))
    decreases |ds|
  {
    hide Times, W32, W64;
    var w := Weight(|blocks[b]|, perIns);
    if ds == [] {
      TimesLaws(w, 0, 0);
    } else {
      var n := |ds| - 1;
      RunSumExactIff(placed, blocks, perIns, ds[..n], buckets, b);
      ShardedLoss(placed, blocks, perIns, ds[n], buckets, buckets, b);
      BucketsPartition(ds[n], |blocks|, buckets, b);
      var x, y := RunCount(ds[..n], b), Occurrences(ds[n], None, b);
      TimesLaws(w, x, y);
      assert RunFits(ds, w, buckets, b) <==> RunFits(ds[..n], w, buckets, b) && Fits(ds[n], w, buckets, b);
    }
  }

  // ---- counters shared with the device

  /** What a dispatch makes of a 64-bit counter the device adds to directly. */
  ghost function Shared(placed: seq<Increment>, d: seq<Exec>, before: nat, b: nat): nat {
    if d == [] then before else W64(Shared(placed, d[..|d| - 1], before, b) + Hits(placed, d[|d| - 1].block, b))
  }

  ghost function SharedRun(placed: seq<Increment>, ds: seq<seq<Exec>>, b: nat): nat {
    if ds == [] then 0 else Shared(placed, ds[|ds| - 1], SharedRun(placed, ds[..|ds| - 1], b), b)
  }

  lemma {:induction false} SharedCounts(placed: seq<Increment>, blocks: seq<seq<InsInfo>>, perIns: bool, d: seq<Exec>,
                                        buckets: nat, before: nat, b: nat)
    requires Placed(placed, blocks, |blocks|, BlockWeight(perIns)) && Proper(d, |blocks|, buckets) && b < |blocks| &&
             before == W64(before)
    ensures Shared(placed, d, before, b) == W64(before + Times(Weight(|blocks[b]|, perIns), Occurrences(d, None, b)))
    decreases |d|
  {
    hide Times, W32, W64;
    var w := Weight(|blocks[b]|, perIns);
    if d == [] {
      TimesLaws(w, 0, 0);
    } else {
      var n := |d| - 1;
      SharedCounts(placed, blocks, perIns, d[..n], buckets, before, b);
      var x := Occurrences(d[..n], None, b);
      TimesLaws(w, x, 1);
      assert Hits(placed, d[n].block, b) == if d[n].block == b then w else 0;
      WrapSum(before + Times(w, x), Hits(placed, d[n].block, b));
    }
  }

  lemma {:induction false} SharedRunCounts(placed: seq<Increment>, blocks: seq<seq<InsInfo>>, perIns: bool,
                                           ds: seq<seq<Exec>>,
                                           buckets: nat, b: nat)
    requires Placed(placed, blocks, |blocks|, BlockWeight(perIns)) && ProperRun(ds, |blocks|, buckets) && b < |blocks|
    ensures SharedRun(placed, ds, b) == W64(Times(Weight(|blocks[b]|, perIns), RunCount(ds, b)))
    decreases |ds|
  {
    hide Times, W32, W64;
    var w := Weight(|blocks[b]|, perIns);
    if ds == [] {
      TimesLaws(w, 0, 0);
      WrapIdempotent(0);
    } else {
      var n := |ds| - 1;
      SharedRunCounts(placed, blocks, perIns, ds[..n], buckets, b);
      WrapIdempotent(Times(w, RunCount(ds[..n], b)));
      SharedCounts(placed, blocks, perIns, ds[n], buckets, SharedRun(placed, ds[..n], b), b);
      var x, y := RunCount(ds[..n], b), Occurrences(ds[n], None, b);
      TimesLaws(w, x, y);
      WrapSum(Times(w, x), Times(w, y));
    }
  }

  // ---- all forms give the histogram of what was executed

  /** The instructions executed in a dispatch, all or those with one key. */
  ghost function ExecutedIn(blocks: seq<seq<InsInfo>>, d: seq<Exec>, only: Option<Key>): nat
    requires forall i | 0 <= i < |d| :: d[i].block < |blocks|
  {
    if d == [] then 0 else ExecutedIn(blocks, d[..|d| - 1], only) + Counts(blocks[d[|d| - 1].block], 1, only)
  }

  ghost function Executed(blocks: seq<seq<InsInfo>>, ds: seq<seq<Exec>>, only: Option<Key>): nat
    requires forall n, i | 0 <= n < |ds| && 0 <= i < |ds[n]| :: ds[n][i].block < |blocks|
  {
    if ds == [] then 0 else Executed(blocks, ds[..|ds| - 1], only) + ExecutedIn(blocks, ds[|ds| - 1], only)
  }

  ghost function DispatchCounts(d: seq<Exec>, blocks: nat): (s: seq<nat>)
    ensures |s| == blocks && forall b | 0 <= b < blocks :: s[b] == Occurrences(d, None, b)
  {
    seq(blocks, b requires 0 <= b < blocks => Occurrences(d, None, b))
  }

  ghost function RunCounts(ds: seq<seq<Exec>>, blocks: nat): (s: seq<nat>)
    ensures |s| == blocks && forall b | 0 <= b < blocks :: s[b] == RunCount(ds, b)
  {
    seq(blocks, b requires 0 <= b < blocks => RunCount(ds, b))
  }

  lemma {:induction false} CountsAdd(block: seq<InsInfo>, f: nat, g: nat, only: Option<Key>)
    ensures Counts(block, f + g, only) == Counts(block, f, only) + Counts(block, g, only)
    decreases |block|
  {
    if block != [] {
      CountsAdd(block[..|block| - 1], f, g, only);
    }
  }

  lemma {:induction false} KernelCountsAdd(blocks: seq<seq<InsInfo>>, f: seq<nat>, g: seq<nat>, h: seq<nat>,
                                           only: Option<Key>)
    requires |f| == |g| == |h| == |blocks| && forall b | 0 <= b < |blocks| :: h[b] == f[b] + g[b]
    ensures KernelCounts(blocks, h, false, only) ==
              KernelCounts(blocks, f, false, only) + KernelCounts(blocks, g, false, only)
    decreases |blocks|
  {
    if blocks != [] {
      var n := |blocks| - 1;
      KernelCountsAdd(blocks[..n], f[..n], g[..n], h[..n], only);
      CountsAdd(blocks[n], f[n], g[n], only);
    }
  }

  lemma {:induction false} KernelCountsUnit(blocks: seq<seq<InsInfo>>, u: seq<nat>, c: nat, only: Option<Key>)
    requires |u| == |blocks| && forall b | 0 <= b < |blocks| :: u[b] == if b == c then 1 else 0
    ensures KernelCounts(blocks, u, false, only) == if c < |blocks| then Counts(blocks[c], 1, only) else 0
    decreases |blocks|
  {
    if blocks != [] {
      var n := |blocks| - 1;
      KernelCountsUnit(blocks[..n], u[..n], c, only);
      CountsZero(blocks[n], only);
    }
  }

  lemma {:induction false} KernelCountsZero(blocks: seq<seq<InsInfo>>, z: seq<nat>, only: Option<Key>)
    requires |z| == |blocks| && forall b | 0 <= b < |blocks| :: z[b] == 0
    ensures KernelCounts(blocks, z, false, only) == 0
  {
    KernelCountsUnit(blocks, z, |blocks|, only);
  }

  lemma OneOccurrence(e: Exec, b: nat)
    ensures Occurrences([e], None, b) == if e.block == b then 1 else 0
  {
    assert [e][..0] == [];
  }

  lemma {:induction false} DispatchExecuted(blocks: seq<seq<InsInfo>>, d: seq<Exec>, only: Option<Key>)
    requires forall i | 0 <= i < |d| :: d[i].block < |blocks|
    ensures KernelCounts(blocks, DispatchCounts(d, |blocks|), false, only) == ExecutedIn(blocks, d, only)
    decreases |d|
  {
    if d == [] {
      KernelCountsZero(blocks, DispatchCounts(d, |blocks|), only);
    } else {
      var n := |d| - 1;
      var unit := DispatchCounts([d[n]], |blocks|);
      forall b: nat {
        OneOccurrence(d[n], b);
      }
      DispatchExecuted(blocks, d[..n], only);
      KernelCountsUnit(blocks, unit, d[n].block, only);
      KernelCountsAdd(blocks, DispatchCounts(d[..n], |blocks|), unit, DispatchCounts(d, |blocks|), only);
    }
  }

  /** Counting how often blocks ran counts the instructions executed. */
  lemma {:induction false} RunExecuted(blocks: seq<seq<InsInfo>>, ds: seq<seq<Exec>>, only: Option<Key>)
    requires forall n, i | 0 <= n < |ds| && 0 <= i < |ds[n]| :: ds[n][i].block < |blocks|
    ensures KernelCounts(blocks, RunCounts(ds, |blocks|), false, only) == Executed(blocks, ds, only)
    decreases |ds|
  {
    if ds == [] {
      KernelCountsZero(blocks, RunCounts(ds, |blocks|), only);
    } else {
      var n := |ds| - 1;
      RunExecuted(blocks, ds[..n], only);
      DispatchExecuted(blocks, ds[n], only);
      KernelCountsAdd(blocks, RunCounts(ds[..n], |blocks|), DispatchCounts(ds[n], |blocks|),
                      RunCounts(ds, |blocks|), only);
    }
  }

  lemma {:induction false} SameInsFreqs(blocks: seq<seq<InsInfo>>, f: seq<nat>, perIns: bool, g: seq<nat>,
                                        only: Option<Key>)
    requires |f| == |g| == |blocks| && forall b | 0 <= b < |blocks| && blocks[b] != [] ::
              InsFreq(blocks[b], f[b], perIns) == g[b]
    ensures KernelCounts(blocks, f, perIns, only) == KernelCounts(blocks, g, false, only)
    decreases |blocks|
  {
    if blocks != [] {
      var n := |blocks| - 1;
      SameInsFreqs(blocks[..n], f[..n], perIns, g[..n], only);
    }
  }

  lemma ProductDivides(s: nat, n: nat)
    requires s > 0
    ensures Times(s, n) / s == n
  {
    hide Times;
    var q := Times(s, n) / s;
    if q < n {
      TimesLaws(s, q + 1, n - q - 1);
      TimesLaws(s, q, 1);
    } else if q > n {
      TimesLaws(s, n + 1, q - n - 1);
      TimesLaws(s, n, 1);
    }
    TimesQuotient(s, Times(s, n));
  }

  lemma TimesQuotient(s: nat, p: nat)
    requires s > 0
    ensures Times(s, p / s) <= p < Times(s, p / s) + s
  {
  }

  /** A counter that has the weight of its block for every run gives back the number
      of runs: the division by the size of the block is exact. */
  lemma DivisionExact(block: seq<InsInfo>, perIns: bool, n: nat)
    requires block != []
    ensures InsFreq(block, Times(Weight(|block|, perIns), n), perIns) == n
  {
    ProductDivides(|block|, n);
  }

  /** The counters of the profile are exact and fit 64 bits. */
  ghost predicate Exact(blocks: seq<seq<InsInfo>>, ds: seq<seq<Exec>>, perIns: bool, f: seq<nat>) {
    |f| == |blocks| && forall b | 0 <= b < |blocks| :: f[b] == Times(Weight(|blocks[b]|, perIns), RunCount(ds, b))
  }

  lemma ExactGivesExecuted(blocks: seq<seq<InsInfo>>, ds: seq<seq<Exec>>, perIns: bool, f: seq<nat>, only: Option<Key>)
    requires Exact(blocks, ds, perIns, f)
    requires forall n, i | 0 <= n < |ds| && 0 <= i < |ds[n]| :: ds[n][i].block < |blocks|
    ensures KernelCounts(blocks, f, perIns, only) == Executed(blocks, ds, only)
  {
    forall b | 0 <= b < |blocks| && blocks[b] != []
      ensures InsFreq(blocks[b], f[b], perIns) == RunCounts(ds, |blocks|)[b] {
      DivisionExact(blocks[b], perIns, RunCount(ds, b));
    }
    SameInsFreqs(blocks, f, perIns, RunCounts(ds, |blocks|), only);
    RunExecuted(blocks, ds, only);
  }

  /** A counter short of the weight of its block for every run shows in the count. */
  lemma FrequencyBelow(block: seq<InsInfo>, perIns: bool, f: nat, n: nat)
    requires block != [] && f <= Times(Weight(|block|, perIns), n)
    ensures InsFreq(block, f, perIns) <= n
    ensures InsFreq(block, f, perIns) == n <==> f == Times(Weight(|block|, perIns), n)
  {
    DivisionExact(block, perIns, n);
    if perIns {
      QuotientBelow(|block|, f, n);
    }
  }

  lemma QuotientBelow(s: nat, f: nat, n: nat)
    requires s > 0 && f <= Times(s, n)
    ensures f / s <= n && (f / s == n <==> f == Times(s, n))
  {
    hide Times;
    TimesQuotient(s, f);
    ProductDivides(s, n);
    var q := f / s;
    if q >= n {
      TimesLaws(s, n, q - n);
    }
  }

  lemma {:induction false} CountsAll(block: seq<InsInfo>, f: nat)
    ensures Counts(block, f, None) == Times(|block|, f)
    decreases |block|
  {
    if block != [] {
      CountsAll(block[..|block| - 1], f);
      assert |block| * f == (|block| - 1) * f + f;
    }
  }

  lemma MoreCounts(block: seq<InsInfo>, f: nat, g: nat)
    requires block != [] && f <= g
    ensures Counts(block, f, None) <= Counts(block, g, None)
    ensures Counts(block, f, None) == Counts(block, g, None) <==> f == g
  {
    hide Times;
    CountsAll(block, f);
    CountsAll(block, g);
    TimesLaws(|block|, f, g - f);
    if f < g {
      TimesLaws(|block|, 1, g - f - 1);
    }
  }

  /** Frequencies that are nowhere too high give the right total only if they are right. */
  lemma {:induction false} TotalExactIff(blocks: seq<seq<InsInfo>>, f: seq<nat>, perIns: bool, g: seq<nat>)
    requires |f| == |g| == |blocks| && forall b | 0 <= b < |blocks| && blocks[b] != [] ::
              InsFreq(blocks[b], f[b], perIns) <= g[b]
    ensures KernelCounts(blocks, f, perIns, None) <= KernelCounts(blocks, g, false, None)
    ensures KernelCounts(blocks, f, perIns, None) == KernelCounts(blocks, g, false, None) <==>
            forall b | 0 <= b < |blocks| && blocks[b] != [] :: InsFreq(blocks[b], f[b], perIns) == g[b]
    decreases |blocks|
  {
    hide Counts;
    if blocks != [] {
      var n := |blocks| - 1;
      TotalExactIff(blocks[..n], f[..n], perIns, g[..n]);
      if blocks[n] != [] {
        MoreCounts(blocks[n], InsFreq(blocks[n], f[n], perIns), g[n]);
      } else {
        CountsAll([], InsFreq(blocks[n], f[n], perIns));
        CountsAll([], g[n]);
        TimesZero(InsFreq(blocks[n], f[n], perIns));
        TimesZero(g[n]);
      }
      assert (forall b | 0 <= b < |blocks| && blocks[b] != [] :: InsFreq(blocks[b], f[b], perIns) == g[b]) <==>
             (forall b | 0 <= b < n && blocks[..n][b] != [] ::
              InsFreq(blocks[..n][b], f[..n][b], perIns) == g[..n][b]) &&
             (blocks[n] != [] ==> InsFreq(blocks[n], f[n], perIns) == g[n]);
    }
  }

  lemma TimesZero(n: nat)
    ensures Times(0, n) == 0
  {
  }

  /** Counters that are nowhere too high count what was executed exactly when they are
      exact. */
  lemma CountsExecutedIff(blocks: seq<seq<InsInfo>>, ds: seq<seq<Exec>>, perIns: bool, f: seq<nat>)
    requires |f| == |blocks| && forall b | 0 <= b < |blocks| ::
              f[b] <= Times(Weight(|blocks[b]|, perIns), RunCount(ds, b))
    requires forall n, i | 0 <= n < |ds| && 0 <= i < |ds[n]| :: ds[n][i].block < |blocks|
    ensures KernelCounts(blocks, f, perIns, None) == Executed(blocks, ds, None) <==> Exact(blocks, ds, perIns, f)
  {
    hide Times, InsFreq;
    var g := RunCounts(ds, |blocks|);
    forall b | 0 <= b < |blocks| && blocks[b] != []
      ensures InsFreq(blocks[b], f[b], perIns) <= g[b]
      ensures InsFreq(blocks[b], f[b], perIns) == g[b] <==> f[b] == Times(Weight(|blocks[b]|, perIns), RunCount(ds, b))
    {
      FrequencyBelow(blocks[b], perIns, f[b], g[b]);
    }
    forall b | 0 <= b < |blocks| && blocks[b] == []
      ensures f[b] == Times(Weight(|blocks[b]|, perIns), RunCount(ds, b)) {
      TimesZero(RunCount(ds, b));
    }
    TotalExactIff(blocks, f, perIns, g);
    RunExecuted(blocks, ds, None);
  }

  /** The counts of all runs fit the 64-bit counters of the profile. */
  ghost predicate TotalsFit(blocks: seq<seq<InsInfo>>, ds: seq<seq<Exec>>, perIns: bool) {
    forall b | 0 <= b < |blocks| :: Times(Weight(|blocks[b]|, perIns), RunCount(ds, b)) < TWO_64
  }

  /** And those of single dispatches and buckets the 32-bit counters. */
  ghost predicate CountersFit(blocks: seq<seq<InsInfo>>, ds: seq<seq<Exec>>, perIns: bool, buckets: nat) {
    forall b | 0 <= b < |blocks| :: RunFits(ds, Weight(|blocks[b]|, perIns), buckets, b)
  }

  lemma Wraps64Less(x: nat)
    ensures W64(x) <= x && (W64(x) == x <==> x < TWO_64)
  {
  }

  /** What the profile holds is exact exactly when nothing wrapped. */
  lemma BucketedExactIff(blocks: seq<seq<InsInfo>>, ds: seq<seq<Exec>>, buckets: nat, perIns: bool,
                         placed: seq<Increment>,
                         bucketed: seq<nat>)
    requires ProperRun(ds, |blocks|, buckets) && Placed(placed, blocks, |blocks|, BlockWeight(perIns))
    requires |bucketed| == |blocks| && forall b | 0 <= b < |blocks| ::
              bucketed[b] == W64(RunSum(placed, ds, buckets, b))
    ensures forall b | 0 <= b < |blocks| :: bucketed[b] <= Times(Weight(|blocks[b]|, perIns), RunCount(ds, b))
    ensures Exact(blocks, ds, perIns, bucketed) <==>
              CountersFit(blocks, ds, perIns, buckets) && TotalsFit(blocks, ds, perIns)
  {
    hide Times, W64, Placed, RunFits;
    forall b | 0 <= b < |blocks|
      ensures bucketed[b] <= Times(Weight(|blocks[b]|, perIns), RunCount(ds, b))
      ensures bucketed[b] == Times(Weight(|blocks[b]|, perIns), RunCount(ds, b)) <==>
              RunFits(ds, Weight(|blocks[b]|, perIns), buckets, b) &&
                  Times(Weight(|blocks[b]|, perIns), RunCount(ds, b)) < TWO_64
    {
      RunSumExactIff(placed, blocks, perIns, ds, buckets, b);
      Wraps64Less(RunSum(placed, ds, buckets, b));
    }
  }

  lemma SharedExactIff(blocks: seq<seq<InsInfo>>, ds: seq<seq<Exec>>, buckets: nat, perIns: bool, hli: seq<Increment>,
                       shared: seq<nat>)
    requires ProperRun(ds, |blocks|, buckets) && Placed(hli, blocks, |blocks|, BlockWeight(perIns))
    requires |shared| == |blocks| && forall b | 0 <= b < |blocks| :: shared[b] == SharedRun(hli, ds, b)
    ensures forall b | 0 <= b < |blocks| :: shared[b] <= Times(Weight(|blocks[b]|, perIns), RunCount(ds, b))
    ensures Exact(blocks, ds, perIns, shared) <==> TotalsFit(blocks, ds, perIns)
  {
    hide Times, W64, Placed;
    forall b | 0 <= b < |blocks|
      ensures shared[b] <= Times(Weight(|blocks[b]|, perIns), RunCount(ds, b))
      ensures shared[b] == Times(Weight(|blocks[b]|, perIns), RunCount(ds, b)) <==>
              Times(Weight(|blocks[b]|, perIns), RunCount(ds, b)) < TWO_64
    {
      SharedRunCounts(hli, blocks, perIns, ds, buckets, b);
      Wraps64Less(Times(Weight(|blocks[b]|, perIns), RunCount(ds, b)));
    }
  }

  /** Counters, per block or per instruction, in buckets or added to directly by the
      device, count the executed instructions exactly when none of them wraps: then for
      each key, and otherwise not even in total. */
  lemma FormsAgree(blocks: seq<seq<InsInfo>>, ds: seq<seq<Exec>>, buckets: nat, perIns: bool, placed: seq<Increment>,
                   hli: seq<Increment>, bucketed: seq<nat>, shared: seq<nat>, only: Option<Key>)
    requires ProperRun(ds, |blocks|, buckets)
    requires Placed(placed, blocks, |blocks|, BlockWeight(perIns)) && Placed(hli, blocks, |blocks|, BlockWeight(perIns))
    requires |bucketed| == |blocks| && forall b | 0 <= b < |blocks| ::
              bucketed[b] == W64(RunSum(placed, ds, buckets, b))
    requires |shared| == |blocks| && forall b | 0 <= b < |blocks| :: shared[b] == SharedRun(hli, ds, b)
    ensures forall n, i | 0 <= n < |ds| && 0 <= i < |ds[n]| :: ds[n][i].block < |blocks|
    ensures KernelCounts(blocks, bucketed, perIns, None) == Executed(blocks, ds, None) <==>
            CountersFit(blocks, ds, perIns, buckets) && TotalsFit(blocks, ds, perIns)
    ensures KernelCounts(blocks, shared, perIns, None) == Executed(blocks, ds, None) <==> TotalsFit(blocks, ds, perIns)
    ensures CountersFit(blocks, ds, perIns, buckets) && TotalsFit(blocks, ds, perIns) ==>
              KernelCounts(blocks, bucketed, perIns, only) == Executed(blocks, ds, only)
    ensures TotalsFit(blocks, ds, perIns) ==> KernelCounts(blocks, shared, perIns, only) == Executed(blocks, ds, only)
  {
    hide Times, W64, Placed, CountersFit, TotalsFit, Exact, KernelCounts, Executed;
    forall n, i | 0 <= n < |ds| && 0 <= i < |ds[n]| ensures ds[n][i].block < |blocks| {
      assert Proper(ds[n], |blocks|, buckets);
    }
    BucketedExactIff(blocks, ds, buckets, perIns, placed, bucketed);
    SharedExactIff(blocks, ds, buckets, perIns, hli, shared);
    CountsExecutedIff(blocks, ds, perIns, bucketed);
    CountsExecutedIff(blocks, ds, perIns, shared);
    if Exact(blocks, ds, perIns, bucketed) {
      ExactGivesExecuted(blocks, ds, perIns, bucketed, only);
    }
    if Exact(blocks, ds, perIns, shared) {
      ExactGivesExecuted(blocks, ds, perIns, shared, only);
    }
  }

  // ---- the profile of all kernels

  ghost predicate WasExecuted(k: OpcodeprofKernelProfile, perIns: bool)
    requires k.Valid()
    reads k
  {
    W64(KernelCounts(k.bblInfo, k.bblFreq, perIns, None)) != 0
  }

  /** The counts of all kernels that were executed. */
  ghost function MergedCounts(ks: seq<OpcodeprofKernelProfile>, perIns: bool, only: Option<Key>): nat
    requires forall i | 0 <= i < |ks| :: ks[i].Valid()
    reads ks
  {
    if ks == [] then 0
    else
      var last := ks[|ks| - 1];
      MergedCounts(ks[..|ks| - 1], perIns, only) +
          if WasExecuted(last, perIns) then KernelCounts(last.bblInfo, last.bblFreq, perIns, only) else 0
  }

  /** The grand instruction count is the total of the merged histogram, whose values
      are the counts of all kernels. */
  method DumpProfile(ks: seq<OpcodeprofKernelProfile>, perIns: bool)
    returns (histogram: OpcodeprofHistogram, icount: nat)
    requires forall i | 0 <= i < |ks| :: ks[i].Valid()
    ensures fresh(histogram) && histogram.Valid()
    ensures icount == W64(Sum(histogram.data)) == W64(MergedCounts(ks, perIns, None))
    ensures forall k :: histogram.Value(k) == W64(MergedCounts(ks, perIns, Some(k)))
  {
    hide W64, KernelCounts, MergedCounts;
    histogram := new OpcodeprofHistogram();
    icount := 0;
    MergedNothing(perIns);
    for i := 0 to |ks|
      invariant fresh(histogram) && histogram.Valid()
      invariant icount == W64(Sum(histogram.data)) == W64(MergedCounts(ks[..i], perIns, None))
      invariant forall k :: histogram.Value(k) == W64(MergedCounts(ks[..i], perIns, Some(k)))
    {
      icount := MergeKernel(histogram, icount, ks, i, ks[i], perIns);
    }
    assert ks[..|ks|] == ks;
  }

  lemma MergedNothing(perIns: bool)
    ensures Sum(map[]) == 0 == W64(0) && forall only :: W64(MergedCounts([], perIns, only)) == 0
  {
  }

  lemma MergedStep(ks: seq<OpcodeprofKernelProfile>, i: nat, perIns: bool, only: Option<Key>)
    requires i < |ks| && forall j | 0 <= j < |ks| :: ks[j].Valid()
    ensures MergedCounts(ks[..i + 1], perIns, only)
            == MergedCounts(ks[..i], perIns, only) +
                if WasExecuted(ks[i], perIns) then KernelCounts(ks[i].bblInfo, ks[i].bblFreq, perIns, only) else 0
  {
    assert ks[..i + 1][..i] == ks[..i];
  }

  /** A kernel that was not executed is left out. */
  method MergeKernel(histogram: OpcodeprofHistogram, icount: nat, ghost ks: seq<OpcodeprofKernelProfile>, i: nat,
                     kernel: OpcodeprofKernelProfile, perIns: bool)
    returns (icount': nat)
    requires i < |ks| && kernel == ks[i] && forall j | 0 <= j < |ks| :: ks[j].Valid()
    requires histogram.Valid() && icount == W64(Sum(histogram.data)) == W64(MergedCounts(ks[..i], perIns, None))
    requires forall k :: histogram.Value(k) == W64(MergedCounts(ks[..i], perIns, Some(k)))
    modifies histogram
    ensures histogram.Valid() && icount' == W64(Sum(histogram.data)) == W64(MergedCounts(ks[..i + 1], perIns, None))
    ensures forall k :: histogram.Value(k) == W64(MergedCounts(ks[..i + 1], perIns, Some(k)))
  {
    hide W64, KernelCounts, MergedCounts, Sum;
    MergedNothing(perIns);
    var dynamic := new OpcodeprofHistogram();
    var dynamicIcount := kernel.AddDynamicCountersTo(dynamic, perIns);
    MergedStep(ks, i, perIns, None);
    forall k {
      MergedStep(ks, i, perIns, Some(k));
    }
    if dynamicIcount == 0 {
      return icount;
    }
    ghost var before := histogram.data;
    WrapPair(Sum(before), MergedCounts(ks[..i], perIns, None), Sum(dynamic.data),
             KernelCounts(kernel.bblInfo, kernel.bblFreq, perIns, None));
    WrapSum(Sum(before), dynamicIcount);
    WrapSum(Sum(before), Sum(dynamic.data));
    icount' := W64(icount + dynamicIcount);
    histogram.AddAll(dynamic);
    forall k ensures histogram.Value(k) == W64(MergedCounts(ks[..i + 1], perIns, Some(k))) {
      var m, c := MergedCounts(ks[..i], perIns, Some(k)), KernelCounts(kernel.bblInfo, kernel.bblFreq, perIns, Some(k));
      assert dynamic.Value(k) == W64(c);
      WrapIdempotent(m);
      WrapIdempotent(c);
      WrapPair(W64(m), m, W64(c), c);
    }
  }

  lemma WrapPair(a: nat, b: nat, c: nat, d: nat)
    requires W64(a) == W64(b) && W64(c) == W64(d)
    ensures W64(a + c) == W64(b + d)
  {
    WrapBoth(a, b, c);
    WrapBoth(c, d, b);
  }
}
