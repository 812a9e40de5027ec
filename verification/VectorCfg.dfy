/** Sorted register lists, as the live-in vectors of blocks keep them. */
module RegLists {
  import opened Registers

  function AsSet(s: seq<Reg>): set<Reg> {
    set r | r in s
  }

  ghost predicate Increasing(s: seq<Reg>) {
    forall i, j | 0 <= i < j < |s| :: s[i] < s[j]
  }

  ghost predicate Ordered(s: seq<Reg>) {
    forall i, j | 0 <= i < j < |s| :: s[i] <= s[j]
  }

  lemma InsertAt(t: seq<Reg>, i: nat, r: Reg)
    requires Ordered(t) && i <= |t|
    requires forall j | 0 <= j < i :: t[j] <= r
    requires i < |t| ==> r <= t[i]
    ensures var u := t[..i] + [r] + t[i..]; Ordered(u) && AsSet(u) == AsSet(t) + {r}
  {
    var u := t[..i] + [r] + t[i..];
    assert forall j | 0 <= j < i :: u[j] == t[j];
    assert forall j | i < j < |u| :: u[j] == t[j - 1];
    forall x ensures x in u <==> x in t || x == r {
      if x in t {
        var j :| 0 <= j < |t| && t[j] == x;
        assert u[if j < i then j else j + 1] == x;
      }
      assert u[i] == r;
    }
  }

  /** Stands for the library sort. */
  method Sort(s: seq<Reg>) returns (t: seq<Reg>)
    ensures Ordered(t) && AsSet(t) == AsSet(s)
  {
    t := [];
    for n := 0 to |s|
      invariant Ordered(t) && AsSet(t) == AsSet(s[..n])
    {
      var i := 0;
      while i < |t| && t[i] < s[n]
        invariant 0 <= i <= |t| && forall j | 0 <= j < i :: t[j] <= s[n]
      {
        i := i + 1;
      }
      InsertAt(t, i, s[n]);
      assert s[..n + 1] == s[..n] + [s[n]];
      t := t[..i] + [s[n]] + t[i..];
    }
    assert s[..|s|] == s;
  }

  lemma NonEmpty(s: seq<Reg>)
    ensures s != [] ==> AsSet(s) != {}
  {
    if s != [] {
      assert s[0] in AsSet(s);
    }
  }

  /** Two strictly increasing lists differ exactly when their elements do. */
  lemma {:induction false} IncreasingUnique(a: seq<Reg>, b: seq<Reg>)
    requires Increasing(a) && Increasing(b) && AsSet(a) == AsSet(b)
    ensures a == b
    decreases |a|
  {
    if a == [] {
      NonEmpty(b);
    } else {
      assert a[0] in AsSet(b);
      assert b[0] in AsSet(a);
      var i :| 0 <= i < |b| && b[i] == a[0];
      var j :| 0 <= j < |a| && a[j] == b[0];
      assert a[0] == b[0];
      assert AsSet(a[1..]) == AsSet(a) - {a[0]};
      assert AsSet(b[1..]) == AsSet(b) - {b[0]};
      IncreasingUnique(a[1..], b[1..]);
      assert a == [a[0]] + a[1..] && b == [b[0]] + b[1..];
    }
  }

  /** `v` is `s` after its first `i` elements were squeezed into the first `out`. */
  ghost predicate Squeezed(s: seq<Reg>, v: seq<Reg>, i: nat, out: nat) {
    && out <= i <= |v| == |s| && Ordered(s)
    && (forall q | i <= q < |s| :: v[q] == s[q])
    && Increasing(v[..out]) && AsSet(v[..out]) == AsSet(s[..i])
    && (forall p, q | 0 <= p < out && i <= q < |s| :: v[p] < s[q])
  }

  lemma SqueezeStep(s: seq<Reg>, v: seq<Reg>, i: nat, out: nat, j: nat)
    requires Squeezed(s, v, i, out) && i < j <= |s|
    requires forall q | i <= q < j :: v[q] == v[i]
    requires j < |s| ==> v[j] != v[i]
    ensures Squeezed(s, v[out := v[i]], j, out + 1)
  {
    var w := v[out := v[i]];
    assert w[..out + 1] == v[..out] + [v[i]];
    assert AsSet(w[..out + 1]) == AsSet(v[..out]) + {v[i]};
    assert s[..j] == s[..i] + s[i..j];
    assert s[i..j][0] == v[i];
    assert AsSet(s[i..j]) == {v[i]};
    assert AsSet(s[..j]) == AsSet(s[..i]) + AsSet(s[i..j]);
  }
}

/** The blocks of the vector control-flow graph. */
module VectorCfg {
  import opened Registers
  import opened RegLists
  import opened Dataflow

  class VectorMBB {
    const instructions: seq<MachineInstr>
    var predecessors: set<VectorMBB>
    var successors: set<VectorMBB>
    var liveIns: seq<Reg>

    constructor (code: seq<MachineInstr>)
      ensures instructions == code && predecessors == {} && successors == {} && liveIns == []
    {
      instructions, predecessors, successors, liveIns := code, {}, {}, [];
    }

    method AddPredecessorBlock(mbb: VectorMBB)
      modifies this`predecessors, mbb`successors
      ensures predecessors == old(predecessors) + {mbb}
      ensures mbb.successors == old(mbb.successors) + {this}
    {
      predecessors := predecessors + {mbb};
      mbb.successors := mbb.successors + {this};
    }

    method AddSuccessorBlock(mbb: VectorMBB)
      modifies this`successors, mbb`predecessors
      ensures successors == old(successors) + {mbb}
      ensures mbb.predecessors == old(mbb.predecessors) + {this}
    {
      successors := successors + {mbb};
      mbb.predecessors := mbb.predecessors + {this};
    }

    method AddLiveIn(physReg: Reg)
      modifies this`liveIns
      ensures liveIns == old(liveIns) + [physReg]
    {
      liveIns := liveIns + [physReg];
    }

    /** Swaps the list with the caller's. */
    method ClearLiveIns(oldLiveIns: seq<Reg>) returns (swapped: seq<Reg>)
      modifies this`liveIns
      ensures liveIns == oldLiveIns && swapped == old(liveIns)
    {
      swapped := liveIns;
      liveIns := oldLiveIns;
    }

    /** Sorts, then squeezes equal neighbours together in place. */
    method SortUniqueLiveIns()
      modifies this`liveIns
      ensures Increasing(liveIns) && AsSet(liveIns) == old(AsSet(liveIns))
    {
      var ordered := Sort(liveIns);
      liveIns := ordered;
      ghost var sorted := liveIns;
      var i, out := 0, 0;
      while i < |liveIns|
        invariant Squeezed(sorted, liveIns, i, out)
      {
        var physReg := liveIns[i];
        var j := i + 1;
        while j < |liveIns| && liveIns[j] == physReg
          invariant i < j <= |liveIns|
          invariant forall q | i <= q < j :: liveIns[q] == physReg
        {
          j := j + 1;
        }
        SqueezeStep(sorted, liveIns, i, out, j);
        liveIns := liveIns[out := physReg];
        i, out := j, out + 1;
      }
      assert sorted[..i] == sorted;
      liveIns := liveIns[..out];
    }
  }

  /** `mbbs` gives the vector blocks of each machine basic block. */
  class VectorCFG {
    const ri: RegInfo
    const mbbs: map<nat, seq<VectorMBB>>
    const entryBlock: VectorMBB
    const exitBlock: VectorMBB
    ghost const blocks: seq<VectorMBB>

    constructor (ri: RegInfo, mbbs: map<nat, seq<VectorMBB>>, entry: VectorMBB, exit: VectorMBB,
                 ghost blocks: seq<VectorMBB>)
      ensures this.ri == ri && this.mbbs == mbbs && entryBlock == entry && exitBlock == exit && this.blocks == blocks
    {
      this.ri, this.mbbs, entryBlock, exitBlock, this.blocks := ri, mbbs, entry, exit, blocks;
    }

    /** `blocks` lists every block once. */
    ghost predicate Complete() {
      && (forall i, j | 0 <= i < j < |blocks| :: blocks[i] != blocks[j])
      && (forall b: VectorMBB | b in blocks :: b == entryBlock || b == exitBlock || exists m | m in mbbs ::
          b in mbbs[m])
      && (forall m, i | m in mbbs && 0 <= i < |mbbs[m]| :: mbbs[m][i] in blocks)
      && entryBlock in blocks && exitBlock in blocks
    }

    /** Also, an instruction belongs to one block and edges stay in the graph. */
    ghost predicate Valid()
      reads blocks`successors
    {
      && ri.Valid() && Complete()
      && (forall i | 0 <= i < |blocks| :: forall s | s in blocks[i].successors :: s in blocks)
      && (forall i, k | 0 <= i < |blocks| && 0 <= k < |blocks[i].instructions| :: blocks[i].instructions[k].Valid(ri))
      && DistinctIds(CodeOf(|blocks|))
    }

    ghost function IndexOf(b: VectorMBB): (i: nat)
      requires b in blocks
      ensures i < |blocks| && blocks[i] == b
    {
      var i :| 0 <= i < |blocks| && blocks[i] == b;
      i
    }

    ghost function SuccIndices(i: nat): set<nat>
      requires i < |blocks|
      reads blocks`successors
    {
      set j: nat | j < |blocks| && blocks[j] in blocks[i].successors
    }

    /** The graph the equations are about. */
    ghost function Graph(): (g: Dataflow.Graph)
      requires Valid()
      reads blocks`successors
      ensures g.Valid() && |g.succ| == |blocks| && g.ri == ri
      ensures forall i | 0 <= i < |blocks| :: g.code[i] == blocks[i].instructions && g.succ[i] == SuccIndices(i)
    {
      Dataflow.Graph(ri, CodeOf(|blocks|), SuccOf(|blocks|))
    }

    ghost function CodeOf(n: nat): (code: seq<seq<MachineInstr>>)
      requires n <= |blocks|
      ensures |code| == n && forall i | 0 <= i < n :: code[i] == blocks[i].instructions
    {
      if n == 0 then [] else CodeOf(n - 1) + [blocks[n - 1].instructions]
    }

    ghost function SuccOf(n: nat): (succ: seq<set<nat>>)
      requires n <= |blocks|
      reads blocks`successors
      ensures |succ| == n && forall i | 0 <= i < n :: succ[i] == SuccIndices(i)
    {
      if n == 0 then [] else SuccOf(n - 1) + [SuccIndices(n - 1)]
    }

    /** What the live-in lists currently stand for. */
    ghost function LiveInState(): (x: State)
      reads blocks`liveIns
      ensures |x| == |blocks|
      ensures forall i | 0 <= i < |blocks| :: x[i] == Close(ri, AsSet(blocks[i].liveIns))
    {
      LiveInStateOf(|blocks|)
    }

    ghost function LiveInStateOf(n: nat): (x: State)
      requires n <= |blocks|
      reads blocks`liveIns
      ensures |x| == n && forall i | 0 <= i < n :: x[i] == Close(ri, AsSet(blocks[i].liveIns))
    {
      if n == 0 then [] else LiveInStateOf(n - 1) + [Close(ri, AsSet(blocks[n - 1].liveIns))]
    }

    /** The identities of all instructions. */
    ghost function Ids(): set<nat> {
      set i, k | 0 <= i < |blocks| && 0 <= k < |blocks[i].instructions| :: blocks[i].instructions[k].id
    }
  }
}
