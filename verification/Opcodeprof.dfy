/** Counting executed instructions: histograms, kernel profiles, and the three ways
    of placing counters. */
module Opcodeprof {
  import opened Wrappers

  const TWO_32: nat := 0x1_0000_0000
  const TWO_64: nat := 0x1_0000_0000_0000_0000

  function W32(x: nat): nat {
    x % 0x1_0000_0000
  }

  function W64(x: nat): nat {
    x % 0x1_0000_0000_0000_0000
  }

  /** Wrapping early or late is the same. */
  lemma WrapSum(a: nat, b: nat)
    ensures W64(W64(a) + b) == W64(a + b) == W64(a + W64(b))
  {
    WrapLeft(a, b);
    WrapLeft(b, a);
  }

  lemma WrapLeft(a: nat, b: nat)
    ensures W64(W64(a) + b) == W64(a + b)
  {
    var q := a / 0x1_0000_0000_0000_0000;
    WrapShift(W64(a) + b, q);
  }

  lemma {:induction false} WrapShift(x: nat, q: nat)
    ensures W64(x + q * 0x1_0000_0000_0000_0000) == W64(x)
    decreases q
  {
    if q > 0 {
      WrapShift(x, q - 1);
      assert x + q * 0x1_0000_0000_0000_0000 == (x + (q - 1) * 0x1_0000_0000_0000_0000) + 0x1_0000_0000_0000_0000;
    }
  }

  // ---- histograms

  datatype Key = Key(dataType: nat, simdWidth: nat, opcode: nat)

  function ValueAt(data: map<Key, nat>, k: Key): nat {
    if k in data then data[k] else 0
  }

  ghost function SumOver(data: map<Key, nat>, keys: set<Key>): nat
    requires keys <= data.Keys
  {
    if keys == {} then 0 else
      var k :| k in keys;
      data[k] + SumOver(data, keys - {k})
  }

  /** The sum of all values, before any wrapping. */
  ghost function Sum(data: map<Key, nat>): nat {
    SumOver(data, data.Keys)
  }

  lemma {:induction false} SumTakes(data: map<Key, nat>, keys: set<Key>, k: Key)
    requires keys <= data.Keys && k in keys
    ensures SumOver(data, keys) == data[k] + SumOver(data, keys - {k})
    decreases keys
  {
    var c :| c in keys && SumOver(data, keys) == data[c] + SumOver(data, keys - {c});
    if c != k {
      SumTakes(data, keys - {c}, k);
      SumTakes(data, keys - {k}, c);
      assert keys - {c} - {k} == keys - {k} - {c};
    }
  }

  lemma {:induction false} SumSame(a: map<Key, nat>, b: map<Key, nat>, keys: set<Key>)
    requires keys <= a.Keys && keys <= b.Keys && forall k | k in keys :: a[k] == b[k]
    ensures SumOver(a, keys) == SumOver(b, keys)
    decreases keys
  {
    if keys != {} {
      var k :| k in keys;
      SumTakes(a, keys, k);
      SumTakes(b, keys, k);
      SumSame(a, b, keys - {k});
    }
  }

  /** Replacing one value changes the sum by the difference. */
  lemma SumUpdate(data: map<Key, nat>, k: Key, v: nat)
    ensures Sum(data[k := v]) + ValueAt(data, k) == Sum(data) + v && ValueAt(data, k) <= Sum(data)
  {
    var next := data[k := v];
    SumTakes(next, next.Keys, k);
    SumSame(next, data, next.Keys - {k});
    if k in data {
      SumTakes(data, data.Keys, k);
      assert next.Keys - {k} == data.Keys - {k};
    } else {
      assert next.Keys - {k} == data.Keys;
    }
  }

  class OpcodeprofHistogram {
    var data: map<Key, nat>

    constructor ()
      ensures data == map[]
    {
      data := map[];
    }

    predicate Valid()
      reads this
    {
      forall k | k in data :: data[k] < TWO_64
    }

    function Value(k: Key): nat
      reads this
    {
      ValueAt(data, k)
    }

    /** Adds to one value, and to the total as much. A zero leaves no entry. */
    method Add(k: Key, addVal: nat) returns (value: nat)
      requires Valid() && addVal < TWO_64
      modifies this
      ensures Valid() && value == (if addVal == 0 then 0 else Value(k))
      ensures Value(k) == W64(old(Value(k)) + addVal)
      ensures forall j | j != k :: Value(j) == old(Value(j))
      ensures W64(Sum(data)) == W64(old(Sum(data)) + addVal)
    {
      value := 0;
      if addVal != 0 {
        value := W64(ValueAt(data, k) + addVal);
        SumUpdate(data, k, value);
        WrapMoved(Sum(data[k := value]), Sum(data), ValueAt(data, k), addVal);
        data := data[k := value];
      }
    }

    /** `this += rh` */
    method AddAll(rh: OpcodeprofHistogram)
      requires Valid() && rh.Valid() && rh != this
      modifies this
      ensures Valid() && forall k :: Value(k) == W64(old(Value(k)) + rh.Value(k))
      ensures W64(Sum(data)) == W64(old(Sum(data)) + Sum(rh.data))
    {
      hide W64, SumOver;
      var todo := rh.data.Keys;
      SmallStays(data);
      assert forall k | k !in todo :: rh.Value(k) == 0;
      while todo != {}
        invariant todo <= rh.data.Keys && Valid()
        invariant forall k :: Value(k) == if k in todo then old(Value(k)) else W64(old(Value(k)) + rh.Value(k))
        invariant W64(Sum(data) + SumOver(rh.data, todo)) == W64(old(Sum(data)) + Sum(rh.data))
        decreases todo
      {
        var k :| k in todo;
        SumTakes(rh.data, todo, k);
        ghost var before := Sum(data);
        var _ := Add(k, rh.data[k]);
        WrapBoth(Sum(data), before + rh.data[k], SumOver(rh.data, todo - {k}));
        todo := todo - {k};
      }
      SumNothing(rh.data);
    }

    method Total() returns (total: nat)
      ensures total == W64(Sum(data))
    {
      hide W64, SumOver;
      total := 0;
      WrapIdempotent(0);
      var todo := data.Keys;
      while todo != {}
        invariant todo <= data.Keys
        invariant W64(total + SumOver(data, todo)) == W64(Sum(data)) && W64(total) == total
        decreases todo
      {
        var k :| k in todo;
        SumTakes(data, todo, k);
        WrapIdempotent(total + data[k]);
        WrapBoth(W64(total + data[k]), total + data[k], SumOver(data, todo - {k}));
        total := W64(total + data[k]);
        todo := todo - {k};
      }
      SumNothing(data);
    }
  }

  lemma WrapIdempotent(a: nat)
    ensures W64(W64(a)) == W64(a) && W64(0) == 0
  {
  }

  /** Values below the limit do not wrap. */
  lemma SmallStays(data: map<Key, nat>)
    requires forall k | k in data :: data[k] < TWO_64
    ensures forall k :: W64(ValueAt(data, k)) == ValueAt(data, k)
  {
  }

  lemma SumNothing(data: map<Key, nat>)
    ensures SumOver(data, {}) == 0
  {
  }

  lemma WrapBoth(a: nat, b: nat, c: nat)
    requires W64(a) == W64(b)
    ensures W64(a + c) == W64(b + c)
  {
    WrapSum(a, c);
    WrapSum(b, c);
  }

  lemma WrapMoved(after: nat, before: nat, value: nat, addVal: nat)
    requires after + value == before + W64(value + addVal) && value <= before
    ensures W64(after) == W64(before + addVal)
  {
    WrapSum(before - value, value + addVal);
  }

  // ---- kernel profiles

  datatype InsInfo = InsInfo(insId: nat, key: Key)

  /** `f` for every instruction of the block, or for those with one key only. */
  ghost function Counts(block: seq<InsInfo>, f: nat, only: Option<Key>): nat {
    if block == [] then 0
    else
      var last := block[|block| - 1];
      Counts(block[..|block| - 1], f, only) + if only == None || only == Some(last.key) then f else 0
  }

  lemma CountsStep(block: seq<InsInfo>, n: nat, f: nat, only: Option<Key>)
    requires n < |block|
    ensures Counts(block[..n + 1], f, only) == Counts(block[..n], f, only) + if only == None ||
              only == Some(block[n].key) then f else 0
  {
    assert block[..n + 1][..n] == block[..n];
  }

  lemma {:induction false} CountsZero(block: seq<InsInfo>, only: Option<Key>)
    ensures Counts(block, 0, only) == 0
    decreases |block|
  {
    if block != [] {
      CountsZero(block[..|block| - 1], only);
    }
  }

  /** How often each instruction of a block was executed, as the counter has it. */
  function InsFreq(block: seq<InsInfo>, freq: nat, perIns: bool): nat {
    if perIns && block != [] then freq / |block| else freq
  }

  /** The counters of the blocks of a kernel, by instruction or by key. */
  ghost function KernelCounts(blocks: seq<seq<InsInfo>>, freqs: seq<nat>, perIns: bool, only: Option<Key>): nat
    requires |freqs| == |blocks|
  {
    if blocks == [] then 0
    else
      var n := |blocks| - 1;
      KernelCounts(blocks[..n], freqs[..n], perIns, only) +
          Counts(blocks[n], InsFreq(blocks[n], freqs[n], perIns), only)
  }

  lemma KernelCountsStep(blocks: seq<seq<InsInfo>>, freqs: seq<nat>, perIns: bool, n: nat, only: Option<Key>)
    requires |freqs| == |blocks| && n < |blocks|
    ensures KernelCounts(blocks[..n + 1], freqs[..n + 1], perIns, only)
            == KernelCounts(blocks[..n], freqs[..n], perIns, only) +
                Counts(blocks[n], InsFreq(blocks[n], freqs[n], perIns), only)
    ensures freqs[n] == 0 ==>
              KernelCounts(blocks[..n + 1], freqs[..n + 1], perIns, only) ==
                  KernelCounts(blocks[..n], freqs[..n], perIns, only)
  {
    assert blocks[..n + 1][..n] == blocks[..n] && freqs[..n + 1][..n] == freqs[..n];
    CountsZero(blocks[n], only);
  }

  /** A histogram gained the counts of a block. */
  ghost predicate GainedBlock(before: map<Key, nat>, after: map<Key, nat>, block: seq<InsInfo>, f: nat) {
    && (forall k :: ValueAt(after, k) == W64(ValueAt(before, k) + Counts(block, f, Some(k))))
    && W64(Sum(after)) == W64(Sum(before) + Counts(block, f, None))
  }

  /** A histogram gained the counts of a kernel. */
  ghost predicate GainedKernel(before: map<Key, nat>, after: map<Key, nat>, blocks: seq<seq<InsInfo>>, freqs: seq<nat>,
                               perIns: bool)
    requires |freqs| == |blocks|
  {
    && (forall k :: ValueAt(after, k) == W64(ValueAt(before, k) + KernelCounts(blocks, freqs, perIns, Some(k))))
    && W64(Sum(after)) == W64(Sum(before) + KernelCounts(blocks, freqs, perIns, None))
  }

  ghost predicate Small(data: map<Key, nat>) {
    forall k | k in data :: data[k] < TWO_64
  }

  lemma GainNothing(data: map<Key, nat>, f: nat, perIns: bool)
    requires Small(data)
    ensures GainedBlock(data, data, [], f) && GainedKernel(data, data, [], [], perIns)
  {
  }

  lemma WrapTwice(a: nat, b: nat, c: nat, r: nat)
    requires r == W64(W64(a + b) + c)
    ensures r == W64(a + (b + c))
  {
    WrapSum(a + b, c);
  }

  lemma GainedBlockStep(d0: map<Key, nat>, d1: map<Key, nat>, d2: map<Key, nat>, block: seq<InsInfo>, n: nat, f: nat)
    requires n < |block| && GainedBlock(d0, d1, block[..n], f)
    requires ValueAt(d2, block[n].key) == W64(ValueAt(d1, block[n].key) + f) && forall j | j != block[n].key ::
              ValueAt(d2, j) == ValueAt(d1, j)
    requires W64(Sum(d2)) == W64(Sum(d1) + f)
    ensures GainedBlock(d0, d2, block[..n + 1], f)
  {
    hide W64;
    CountsStep(block, n, f, None);
    WrapBoth(Sum(d1), Sum(d0) + Counts(block[..n], f, None), f);
    forall k ensures ValueAt(d2, k) == W64(ValueAt(d0, k) + Counts(block[..n + 1], f, Some(k))) {
      CountsStep(block, n, f, Some(k));
      if k == block[n].key {
        WrapTwice(ValueAt(d0, k), Counts(block[..n], f, Some(k)), f, ValueAt(d2, k));
      }
    }
  }

  lemma GainedKernelStep(d0: map<Key, nat>, d1: map<Key, nat>, d2: map<Key, nat>, blocks: seq<seq<InsInfo>>,
                         freqs: seq<nat>,
                         perIns: bool, n: nat)
    requires |freqs| == |blocks| && n < |blocks| && GainedKernel(d0, d1, blocks[..n], freqs[..n], perIns)
    requires if freqs[n] == 0 then d2 == d1 else GainedBlock(d1, d2, blocks[n], InsFreq(blocks[n], freqs[n], perIns))
    ensures GainedKernel(d0, d2, blocks[..n + 1], freqs[..n + 1], perIns)
  {
    hide W64, KernelCounts, Counts, Sum, InsFreq;
    var f := InsFreq(blocks[n], freqs[n], perIns);
    KernelCountsStep(blocks, freqs, perIns, n, None);
    WrapBoth(Sum(d1), Sum(d0) + KernelCounts(blocks[..n], freqs[..n], perIns, None), Counts(blocks[n], f, None));
    forall k
      ensures ValueAt(d2, k) == W64(ValueAt(d0, k) + KernelCounts(blocks[..n + 1], freqs[..n + 1], perIns, Some(k))) {
      KernelCountsStep(blocks, freqs, perIns, n, Some(k));
      if freqs[n] != 0 {
        WrapTwice(ValueAt(d0, k), KernelCounts(blocks[..n], freqs[..n], perIns, Some(k)),
                  Counts(blocks[n], f, Some(k)), ValueAt(d2, k));
      }
    }
  }

  class OpcodeprofKernelProfile {
    const bblInfo: seq<seq<InsInfo>>
    var bblFreq: seq<nat>

    constructor (bbls: seq<seq<InsInfo>>)
      ensures bblInfo == bbls && |bblFreq| == |bbls| && forall b | 0 <= b < |bbls| :: bblFreq[b] == 0
    {
      bblInfo := bbls;
      bblFreq := seq(|bbls|, _ => 0);
    }

    predicate Valid()
      reads this
    {
      |bblFreq| == |bblInfo| && forall b | 0 <= b < |bblFreq| :: bblFreq[b] < TWO_64
    }

    method Accumulate(freq: nat, bblId: nat)
      requires Valid() && bblId < |bblFreq|
      modifies this`bblFreq
      ensures Valid() && bblFreq == old(bblFreq)[bblId := W64(old(bblFreq[bblId]) + freq)]
    {
      bblFreq := bblFreq[bblId := W64(bblFreq[bblId] + freq)];
    }

    method AddBlock(histogram: OpcodeprofHistogram, block: seq<InsInfo>, freq: nat, perIns: bool,
                    icount: nat)
      returns (icount': nat)
      requires histogram.Valid() && freq < TWO_64
      modifies histogram
      ensures histogram.Valid() && GainedBlock(old(histogram.data), histogram.data, block, InsFreq(block, freq, perIns))
      ensures icount' == W64(icount + Counts(block, InsFreq(block, freq, perIns), None))
    {
      hide W64, GainedBlock;
      ghost var all := InsFreq(block, freq, perIns);
      icount' := W64(icount);
      GainNothing(histogram.data, all, perIns);
      for n := 0 to |block|
        invariant histogram.Valid() && GainedBlock(old(histogram.data), histogram.data, block[..n], all)
        invariant icount' == W64(icount + Counts(block[..n], all, None))
      {
        var f := freq;
        if perIns {
          f := freq / |block|;
        }
        ghost var before := histogram.data;
        WrapTwice(icount, Counts(block[..n], all, None), f, W64(icount' + f));
        CountsStep(block, n, all, None);
        icount' := W64(icount' + f);
        var _ := histogram.Add(block[n].key, f);
        assert forall j :: histogram.Value(j) == ValueAt(histogram.data, j);
        GainedBlockStep(old(histogram.data), before, histogram.data, block, n, f);
      }
      assert block[..|block|] == block;
    }

    /** Returns the instruction count, by which the total of the histogram rises. */
    method AddDynamicCountersTo(histogram: OpcodeprofHistogram, perIns: bool) returns (icount: nat)
      requires Valid() && histogram.Valid()
      modifies histogram
      ensures histogram.Valid() && GainedKernel(old(histogram.data), histogram.data, bblInfo, bblFreq, perIns)
      ensures icount == W64(KernelCounts(bblInfo, bblFreq, perIns, None))
      ensures W64(Sum(histogram.data)) == W64(old(Sum(histogram.data)) + icount)
    {
      hide W64, GainedBlock, GainedKernel;
      icount := 0;
      WrapIdempotent(0);
      GainNothing(histogram.data, 0, perIns);
      for b := 0 to |bblInfo|
        invariant histogram.Valid() &&
                  GainedKernel(old(histogram.data), histogram.data, bblInfo[..b], bblFreq[..b], perIns)
        invariant icount == W64(KernelCounts(bblInfo[..b], bblFreq[..b], perIns, None))
      {
        ghost var before := histogram.data;
        ghost var done := KernelCounts(bblInfo[..b], bblFreq[..b], perIns, None);
        KernelCountsStep(bblInfo, bblFreq, perIns, b, None);
        if bblFreq[b] != 0 {
          WrapSum(done, Counts(bblInfo[b], InsFreq(bblInfo[b], bblFreq[b], perIns), None));
          icount := AddBlock(histogram, bblInfo[b], bblFreq[b], perIns, icount);
        }
        GainedKernelStep(old(histogram.data), before, histogram.data, bblInfo, bblFreq, perIns, b);
      }
      assert bblInfo[..|bblInfo|] == bblInfo && bblFreq[..|bblFreq|] == bblFreq;
      TotalRises(old(histogram.data), histogram.data, bblInfo, bblFreq, perIns);
    }

    /** Every instruction counts once. */
    method AddStaticCountersTo(histogram: OpcodeprofHistogram) returns (icount: nat)
      requires Valid() && histogram.Valid()
      modifies histogram
      ensures histogram.Valid() && GainedKernel(old(histogram.data), histogram.data, bblInfo, Ones(|bblInfo|), false)
      ensures icount == W64(KernelCounts(bblInfo, Ones(|bblInfo|), false, None))
    {
      hide W64, GainedBlock, GainedKernel;
      icount := 0;
      WrapIdempotent(0);
      GainNothing(histogram.data, 0, false);
      for b := 0 to |bblInfo|
        invariant histogram.Valid() &&
                  GainedKernel(old(histogram.data), histogram.data, bblInfo[..b], Ones(|bblInfo|)[..b], false)
        invariant icount == W64(KernelCounts(bblInfo[..b], Ones(|bblInfo|)[..b], false, None))
      {
        ghost var before := histogram.data;
        KernelCountsStep(bblInfo, Ones(|bblInfo|), false, b, None);
        WrapSum(KernelCounts(bblInfo[..b], Ones(|bblInfo|)[..b], false, None), Counts(bblInfo[b], 1, None));
        icount := AddBlock(histogram, bblInfo[b], 1, false, icount);
        GainedKernelStep(old(histogram.data), before, histogram.data, bblInfo, Ones(|bblInfo|), false, b);
      }
      assert bblInfo[..|bblInfo|] == bblInfo && Ones(|bblInfo|)[..|bblInfo|] == Ones(|bblInfo|);
    }
  }

  ghost function Ones(n: nat): (s: seq<nat>)
    ensures |s| == n && forall i | 0 <= i < n :: s[i] == 1
  {
    seq(n, _ => 1)
  }

  lemma TotalRises(before: map<Key, nat>, after: map<Key, nat>, blocks: seq<seq<InsInfo>>, freqs: seq<nat>,
                   perIns: bool)
    requires |freqs| == |blocks| && GainedKernel(before, after, blocks, freqs, perIns)
    ensures W64(Sum(after)) == W64(Sum(before) + W64(KernelCounts(blocks, freqs, perIns, None)))
  {
    hide W64;
    WrapSum(Sum(before), KernelCounts(blocks, freqs, perIns, None));
  }
}
