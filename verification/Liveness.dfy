/** The sweep that computes the registers live before each instruction. */
module Liveness {
  import opened Registers
  import opened RegLists
  import opened Dataflow
  import opened VectorCfg

  /** Live registers per machine instruction. */
  class InstrLiveness {
    var live: map<nat, set<Reg>>

    constructor ()
      ensures live == map[]
    {
      live := map[];
    }
  }

  /** A list some earlier recomputation may have stored, or the empty one. */
  ghost predicate Canonical(ri: RegInfo, liveIns: seq<Reg>) {
    && Increasing(liveIns) && AsSet(liveIns) <= ri.regs
    && AsSet(liveIns) == Emit(ri, Close(ri, AsSet(liveIns)))
  }

  /** Comparing the lists detects a change exactly when the sets changed. */
  lemma CanonicalUnique(ri: RegInfo, a: seq<Reg>, b: seq<Reg>)
    requires Canonical(ri, a) && Canonical(ri, b)
    ensures a == b <==> Close(ri, AsSet(a)) == Close(ri, AsSet(b))
  {
    if Close(ri, AsSet(a)) == Close(ri, AsSet(b)) {
      IncreasingUnique(a, b);
    }
  }

  method AddBlockLiveIns(ri: RegInfo, lpr: set<Reg>, mbb: VectorMBB) returns (out: set<Reg>)
    ensures out == lpr + Close(ri, AsSet(mbb.liveIns))
  {
    out := lpr;
    for i := 0 to |mbb.liveIns|
      invariant out == lpr + Close(ri, AsSet(mbb.liveIns[..i]))
    {
      var reg := mbb.liveIns[i];
      assert mbb.liveIns[..i + 1] == mbb.liveIns[..i] + [reg];
      assert AsSet(mbb.liveIns[..i + 1]) == AsSet(mbb.liveIns[..i]) + {reg};
      out := out + (if reg in ri.subs then ri.subs[reg] else {});
    }
    assert mbb.liveIns[..|mbb.liveIns|] == mbb.liveIns;
  }

  method AddLiveOutsNoPristines(cfg: VectorCFG, lpr: set<Reg>, mbb: VectorMBB) returns (out: set<Reg>)
    requires cfg.Valid() && mbb in cfg.blocks
    ensures out == lpr + LiveOut(cfg.Graph(), cfg.LiveInState(), cfg.IndexOf(mbb))
  {
    ghost var g, x, b := cfg.Graph(), cfg.LiveInState(), cfg.IndexOf(mbb);
    out := lpr;
    var todo := mbb.successors;
    while todo != {}
      invariant todo <= mbb.successors
      invariant forall r :: r in out <==> r in lpr || exists s | s in g.succ[b] :: cfg.blocks[s] !in todo && r in x[s]
      decreases todo
    {
      var succ :| succ in todo;
      ghost var i := cfg.IndexOf(succ);
      ghost var before := out;
      out := AddBlockLiveIns(cfg.ri, out, succ);
      assert out == before + x[i] && i in g.succ[b];
      todo := todo - {succ};
    }
  }

  /** Copies a live set register by register; adding one adds its parts. */
  method CopyLiveRegs(ri: RegInfo, live: set<Reg>) returns (copy: set<Reg>)
    requires ri.Valid() && IsClosed(ri, live)
    ensures copy == live
  {
    copy := {};
    var todo := live;
    while todo != {}
      invariant todo <= live
      invariant live - todo <= copy <= live
      decreases todo
    {
      var reg :| reg in todo;
      assert reg in ri.subs[reg];
      copy := copy + ri.subs[reg];
      todo := todo - {reg};
    }
  }

  /** Entries for the instructions of a block from `k` on. */
  ghost predicate EntriesFrom(ri: RegInfo, code: seq<MachineInstr>, k: nat, out: set<Reg>, live: map<nat, set<Reg>>)
    requires k <= |code|
  {
    forall j | k <= j < |code| :: code[j].id in live && live[code[j].id] == LiveBefore(ri, code, j, out)
  }

  /** The entries the sweep owes to block `b` when the live-ins stand for `x`. */
  ghost predicate EntriesOf(g: Graph, x: State, b: nat, live: map<nat, set<Reg>>)
    requires g.Valid() && |x| == |g.succ| && b < |x|
  {
    EntriesFrom(g.ri, g.code[b], 0, LiveOut(g, x, b), live)
  }

  ghost function IdsOf(code: seq<MachineInstr>): set<nat> {
    set k | 0 <= k < |code| :: code[k].id
  }

  ghost predicate DistinctInBlock(code: seq<MachineInstr>) {
    forall k, l | 0 <= k < l < |code| :: code[k].id != code[l].id
  }

  /** Visiting one block leaves the entries of every other block alone. */
  lemma EntriesKept(g: Graph, x: State, b: nat, c: nat, m: map<nat, set<Reg>>, n: map<nat, set<Reg>>)
    requires g.Valid() && |x| == |g.succ| && b < |x| && c < |x| && b != c
    requires DistinctIds(g.code) && EntriesOf(g, x, c, m) && m - IdsOf(g.code[b]) == n - IdsOf(g.code[b])
    ensures EntriesOf(g, x, c, n)
  {
    forall k | 0 <= k < |g.code[c]|
      ensures g.code[c][k].id in n && n[g.code[c][k].id] == LiveBefore(g.ri, g.code[c], k, LiveOut(g, x, c))
    {
      assert g.code[c][k].id in m - IdsOf(g.code[b]);
    }
  }

  lemma WalkStart(ri: RegInfo, code: seq<MachineInstr>, out: set<Reg>, m: map<nat, set<Reg>>)
    ensures LiveBefore(ri, code, |code|, out) == out && EntriesFrom(ri, code, |code|, out, m)
  {
  }

  lemma WalkStep(ri: RegInfo, code: seq<MachineInstr>, i: nat, out: set<Reg>, m: map<nat, set<Reg>>)
    requires i < |code| && DistinctInBlock(code) && EntriesFrom(ri, code, i + 1, out, m)
    ensures LiveBefore(ri, code, i, out) == StepBackward(ri, LiveBefore(ri, code, i + 1, out), code[i])
    ensures var n := m[code[i].id := LiveBefore(ri, code, i, out)];
            EntriesFrom(ri, code, i, out, n) && n - IdsOf(code) == m - IdsOf(code)
  {
    assert code[i].id in IdsOf(code);
  }

  /** Walks a block backwards, overwriting the entry of each instruction. */
  method WalkBlock(ri: RegInfo, code: seq<MachineInstr>, out: set<Reg>, perMI: InstrLiveness)
    returns (liveRegs: set<Reg>)
    requires ri.Valid() && IsClosed(ri, out) && DistinctInBlock(code)
    requires forall k | 0 <= k < |code| :: code[k].Valid(ri)
    modifies perMI
    ensures liveRegs == LiveBefore(ri, code, 0, out)
    ensures EntriesFrom(ri, code, 0, out, perMI.live)
    ensures perMI.live - IdsOf(code) == old(perMI.live) - IdsOf(code)
  {
    hide EntriesFrom, IdsOf, LiveBefore;
    liveRegs := out;
    WalkStart(ri, code, out, perMI.live);
    var i := |code|;
    while i > 0
      invariant 0 <= i <= |code|
      invariant liveRegs == LiveBefore(ri, code, i, out)
      invariant EntriesFrom(ri, code, i, out, perMI.live)
      invariant perMI.live - IdsOf(code) == old(perMI.live) - IdsOf(code)
    {
      i := i - 1;
      liveRegs := StepBackward(ri, liveRegs, code[i]);
      LiveBeforeClosed(ri, code, i, out);
      WalkStep(ri, code, i, out, perMI.live);
      StoreEntry(ri, code[i], liveRegs, perMI);
    }
  }

  /** Overwrites the entry of one instruction, creating it when missing. */
  method StoreEntry(ri: RegInfo, mi: MachineInstr, liveRegs: set<Reg>, perMI: InstrLiveness)
    requires ri.Valid() && IsClosed(ri, liveRegs)
    modifies perMI
    ensures perMI.live == old(perMI.live)[mi.id := liveRegs]
  {
    if mi.id !in perMI.live {
      perMI.live := perMI.live[mi.id := {}];
    }
    var copy := CopyLiveRegs(ri, liveRegs);
    perMI.live := perMI.live[mi.id := copy];
  }

  method ComputeLiveIns(cfg: VectorCFG, mbb: VectorMBB, perMI: InstrLiveness) returns (liveRegs: set<Reg>)
    requires cfg.Valid() && mbb in cfg.blocks
    modifies perMI
    ensures liveRegs == LiveAt(cfg.Graph(), cfg.LiveInState(), cfg.IndexOf(mbb), 0)
    ensures EntriesOf(cfg.Graph(), cfg.LiveInState(), cfg.IndexOf(mbb), perMI.live)
    ensures perMI.live - IdsOf(mbb.instructions) == old(perMI.live) - IdsOf(mbb.instructions)
  {
    ghost var g, x, b := cfg.Graph(), cfg.LiveInState(), cfg.IndexOf(mbb);
    var out := AddLiveOutsNoPristines(cfg, {}, mbb);
    LiveOutClosed(cfg, b);
    assert out == LiveOut(g, x, b);
    assert g.code[b] == mbb.instructions;
    liveRegs := WalkBlock(cfg.ri, mbb.instructions, out, perMI);
  }

  lemma LiveOutClosed(cfg: VectorCFG, b: nat)
    requires cfg.Valid() && b < |cfg.blocks|
    ensures IsClosed(cfg.ri, LiveOut(cfg.Graph(), cfg.LiveInState(), b))
  {
    var g, x := cfg.Graph(), cfg.LiveInState();
    forall s, r | s in LiveOut(g, x, b) && s in cfg.ri.subs && r in cfg.ri.subs[s]
      ensures r in LiveOut(g, x, b)
    {
      var t :| t in g.succ[b] && s in x[t];
      var e :| e in AsSet(cfg.blocks[t].liveIns) && e in cfg.ri.subs && s in cfg.ri.subs[e];
      assert r in cfg.ri.subs[e];
      assert r in x[t];
    }
  }

  /** Appends the maximal unreserved live registers, in no particular order. */
  method AddLiveIns(ri: RegInfo, mbb: VectorMBB, liveRegs: set<Reg>)
    modifies mbb`liveIns
    ensures AsSet(mbb.liveIns) == old(AsSet(mbb.liveIns)) + Emit(ri, liveRegs)
  {
    var todo := liveRegs;
    while todo != {}
      invariant todo <= liveRegs
      invariant AsSet(mbb.liveIns) ==
                old(AsSet(mbb.liveIns)) + (set r | r in liveRegs - todo && Emitted(ri, liveRegs, r))
      decreases todo
    {
      var reg :| reg in todo;
      ghost var before := mbb.liveIns;
      if Emitted(ri, liveRegs, reg) {
        mbb.AddLiveIn(reg);
        assert AsSet(mbb.liveIns) == AsSet(before) + {reg};
      }
      todo := todo - {reg};
    }
  }

  method ComputeAndAddLiveIns(cfg: VectorCFG, mbb: VectorMBB, perMI: InstrLiveness) returns (oldLiveIns: seq<Reg>)
    requires cfg.Valid() && mbb in cfg.blocks
    modifies mbb`liveIns, perMI
    ensures oldLiveIns == old(mbb.liveIns)
    ensures AsSet(mbb.liveIns) == old(Emit(cfg.ri, LiveAt(cfg.Graph(), cfg.LiveInState(), cfg.IndexOf(mbb), 0)))
    ensures EntriesOf(old(cfg.Graph()), old(cfg.LiveInState()), cfg.IndexOf(mbb), perMI.live)
    ensures perMI.live - IdsOf(mbb.instructions) == old(perMI.live) - IdsOf(mbb.instructions)
  {
    var liveRegs := ComputeLiveIns(cfg, mbb, perMI);
    oldLiveIns := mbb.ClearLiveIns([]);
    AddLiveIns(cfg.ri, mbb, liveRegs);
  }

  /** Recomputes one block; reports whether its live-in list changed. */
  method RecomputeBlock(cfg: VectorCFG, mbb: VectorMBB, perMI: InstrLiveness) returns (changed: bool)
    requires cfg.Valid() && mbb in cfg.blocks && InRange(cfg.Graph(), cfg.LiveInState())
    requires Canonical(cfg.ri, mbb.liveIns)
    modifies mbb`liveIns, perMI
    ensures Canonical(cfg.ri, mbb.liveIns)
    ensures cfg.LiveInState() == old(var b := cfg.IndexOf(mbb);
                                     cfg.LiveInState()[b := Recomputed(cfg.Graph(), cfg.LiveInState(), b)])
    ensures changed <==> cfg.LiveInState() != old(cfg.LiveInState())
    ensures EntriesOf(cfg.Graph(), old(cfg.LiveInState()), cfg.IndexOf(mbb), perMI.live)
    ensures perMI.live - IdsOf(mbb.instructions) == old(perMI.live) - IdsOf(mbb.instructions)
  {
    ghost var g, x, b := cfg.Graph(), cfg.LiveInState(), cfg.IndexOf(mbb);
    ghost var l := LiveAt(g, x, b, 0);
    var oldLiveIns := ComputeAndAddLiveIns(cfg, mbb, perMI);
    mbb.SortUniqueLiveIns();
    changed := oldLiveIns != mbb.liveIns;

    RecomputedInRange(g, x, b);
    CloseEmit(cfg.ri, l);
    EmitOfClose(cfg.ri, l);
    CanonicalUnique(cfg.ri, oldLiveIns, mbb.liveIns);
    forall i | 0 <= i < |x| && i != b ensures cfg.LiveInState()[i] == x[i] {
      assert cfg.blocks[i] != mbb;
    }
  }

  /** What holds between two visits of a sweep that started from `start` and has
      visited `visited`. */
  ghost predicate SweepInv(g: Graph, x: State, live: map<nat, set<Reg>>, start: State, visited: set<nat>,
                           anyChange: bool)
    requires g.Valid()
  {
    && Growing(g, x)
    && |start| == |x|
    && (!anyChange ==> x == start)
    && (anyChange ==> Room(g.ri.regs, x) < Room(g.ri.regs, start))
    && (!anyChange ==> forall b | b in visited && b < |x| :: x[b] == Recomputed(g, x, b) && EntriesOf(g, x, b, live))
  }

  lemma VisitStep(g: Graph, x: State, m: map<nat, set<Reg>>, n: map<nat, set<Reg>>, start: State, visited: set<nat>,
                  anyChange: bool, b: nat)
    requires g.Valid() && DistinctIds(g.code) && SweepInv(g, x, m, start, visited, anyChange)
    requires b < |x| && EntriesOf(g, x, b, n) && m - IdsOf(g.code[b]) == n - IdsOf(g.code[b])
    ensures var y := x[b := Recomputed(g, x, b)];
            InRange(g, y) && SweepInv(g, y, n, start, visited + {b}, anyChange || y != x)
  {
    var y := x[b := Recomputed(g, x, b)];
    RecomputedInRange(g, x, b);
    GrowingStep(g, x, b);
    RoomShrinks(g.ri.regs, x, b, Recomputed(g, x, b));
    if !anyChange && y == x {
      forall c | c in visited + {b} && c < |y| ensures y[c] == Recomputed(g, y, c) && EntriesOf(g, y, c, n) {
        if c != b {
          EntriesKept(g, x, b, c, m, n);
        }
      }
    }
  }

  /** A state on the way up from the empty one to the least solution. */
  ghost predicate Growing(g: Graph, x: State)
    requires g.Valid()
  {
    && InRange(g, x)
    && (forall b | 0 <= b < |x| :: x[b] <= Recomputed(g, x, b))
    && (forall y | IsPreSolution(g, y) :: Below(x, y))
  }

  lemma GrowingStep(g: Graph, x: State, b: nat)
    requires g.Valid() && Growing(g, x) && b < |x|
    ensures Growing(g, x[b := Recomputed(g, x, b)])
  {
    var z := x[b := Recomputed(g, x, b)];
    RecomputedInRange(g, x, b);
    assert Below(x, z);
    forall c | 0 <= c < |z| ensures z[c] <= Recomputed(g, z, c) {
      RecomputedMonotone(g, x, z, c);
    }
    forall y | IsPreSolution(g, y) ensures Below(z, y) {
      assert Below(x, y);
      RecomputedMonotone(g, x, y, b);
    }
  }

  ghost predicate AllCanonical(cfg: VectorCFG)
    reads cfg.blocks`liveIns
  {
    forall b: VectorMBB | b in cfg.blocks :: Canonical(cfg.ri, b.liveIns)
  }

  /** The graph is still `g`, and the sweep is under way on it. */
  ghost predicate Sweeping(cfg: VectorCFG, g: Graph, perMI: InstrLiveness, start: State, visited: set<nat>,
                           anyChange: bool)
    requires g.Valid()
    reads cfg.blocks`successors, cfg.blocks`liveIns, perMI
  {
    && cfg.Valid() && cfg.Graph() == g && AllCanonical(cfg) && InRange(g, cfg.LiveInState())
    && SweepInv(g, cfg.LiveInState(), perMI.live, start, visited, anyChange)
  }

  lemma OutsideCfg(cfg: VectorCFG, b: nat, m: map<nat, set<Reg>>, n: map<nat, set<Reg>>)
    requires b < |cfg.blocks|
    requires m - IdsOf(cfg.blocks[b].instructions) == n - IdsOf(cfg.blocks[b].instructions)
    ensures m - cfg.Ids() == n - cfg.Ids()
  {
    var ids := IdsOf(cfg.blocks[b].instructions);
    assert ids <= cfg.Ids();
    assert m - cfg.Ids() == m - ids - cfg.Ids() && n - cfg.Ids() == n - ids - cfg.Ids();
  }

  method Visit(cfg: VectorCFG, ghost g: Graph, mbb: VectorMBB, perMI: InstrLiveness, ghost start: State,
               ghost visited: set<nat>, anyChange: bool)
    returns (anyChange': bool)
    requires g.Valid() && mbb in cfg.blocks && Sweeping(cfg, g, perMI, start, visited, anyChange)
    modifies cfg.blocks`liveIns, perMI
    ensures Sweeping(cfg, g, perMI, start, visited + {cfg.IndexOf(mbb)}, anyChange')
    ensures perMI.live - cfg.Ids() == old(perMI.live) - cfg.Ids()
  {
    hide SweepInv, EntriesOf, Recomputed;
    ghost var x, b, m := cfg.LiveInState(), cfg.IndexOf(mbb), perMI.live;
    var changed := RecomputeBlock(cfg, mbb, perMI);
    anyChange' := anyChange || changed;
    assert g.code == cfg.CodeOf(|cfg.blocks|) && g.code[b] == mbb.instructions;
    VisitStep(g, x, m, perMI.live, start, visited, anyChange, b);
    OutsideCfg(cfg, b, m, perMI.live);
  }

  method VisitScalar(cfg: VectorCFG, ghost g: Graph, smbb: seq<VectorMBB>, perMI: InstrLiveness, ghost start: State,
                     ghost visited: set<nat>, anyChange: bool)
    returns (anyChange': bool, ghost visited': set<nat>)
    requires g.Valid() && Sweeping(cfg, g, perMI, start, visited, anyChange)
    requires forall i | 0 <= i < |smbb| :: smbb[i] in cfg.blocks
    modifies cfg.blocks`liveIns, perMI
    ensures Sweeping(cfg, g, perMI, start, visited', anyChange')
    ensures visited <= visited' && forall i | 0 <= i < |smbb| :: cfg.IndexOf(smbb[i]) in visited'
    ensures perMI.live - cfg.Ids() == old(perMI.live) - cfg.Ids()
  {
    hide Sweeping;
    anyChange', visited' := anyChange, visited;
    for i := 0 to |smbb|
      invariant Sweeping(cfg, g, perMI, start, visited', anyChange')
      invariant visited <= visited' && forall j | 0 <= j < i :: cfg.IndexOf(smbb[j]) in visited'
      invariant perMI.live - cfg.Ids() == old(perMI.live) - cfg.Ids()
    {
      anyChange' := Visit(cfg, g, smbb[i], perMI, start, visited', anyChange');
      visited' := visited' + {cfg.IndexOf(smbb[i])};
    }
  }

  ghost predicate VisitedAll(cfg: VectorCFG, ms: set<nat>, visited: set<nat>)
    requires cfg.Complete()
  {
    forall m, i | m in ms && m in cfg.mbbs && 0 <= i < |cfg.mbbs[m]| :: cfg.IndexOf(cfg.mbbs[m][i]) in visited
  }

  lemma AllVisited(cfg: VectorCFG, visited: set<nat>)
    requires cfg.Complete() && VisitedAll(cfg, cfg.mbbs.Keys, visited)
    requires cfg.IndexOf(cfg.entryBlock) in visited && cfg.IndexOf(cfg.exitBlock) in visited
    ensures forall i: nat | i < |cfg.blocks| :: i in visited
  {
    forall i: nat | i < |cfg.blocks| ensures i in visited {
      var b := cfg.blocks[i];
      assert b in cfg.blocks;
      assert cfg.IndexOf(b) == i;
      if b != cfg.entryBlock && b != cfg.exitBlock {
        var m :| m in cfg.mbbs && b in cfg.mbbs[m];
        var j :| 0 <= j < |cfg.mbbs[m]| && cfg.mbbs[m][j] == b;
      }
    }
  }

  /** One sweep over all blocks, in any order of the basic blocks. */
  method Sweep(cfg: VectorCFG, ghost g: Graph, perMI: InstrLiveness) returns (anyChange: bool, ghost visited: set<nat>)
    requires g.Valid() && cfg.Complete() && Sweeping(cfg, g, perMI, cfg.LiveInState(), {}, false)
    modifies cfg.blocks`liveIns, perMI
    ensures Sweeping(cfg, g, perMI, old(cfg.LiveInState()), visited, anyChange)
    ensures forall i: nat | i < |cfg.blocks| :: i in visited
    ensures perMI.live - cfg.Ids() == old(perMI.live) - cfg.Ids()
  {
    hide Sweeping;
    ghost var start := cfg.LiveInState();
    visited := {};
    anyChange := false;
    var todo := cfg.mbbs.Keys;
    while todo != {}
      invariant todo <= cfg.mbbs.Keys
      invariant Sweeping(cfg, g, perMI, start, visited, anyChange)
      invariant VisitedAll(cfg, cfg.mbbs.Keys - todo, visited)
      invariant perMI.live - cfg.Ids() == old(perMI.live) - cfg.Ids()
      decreases todo
    {
      var m :| m in todo;
      anyChange, visited := VisitScalar(cfg, g, cfg.mbbs[m], perMI, start, visited, anyChange);
      todo := todo - {m};
    }
    anyChange := Visit(cfg, g, cfg.entryBlock, perMI, start, visited, anyChange);
    visited := visited + {cfg.IndexOf(cfg.entryBlock)};
    anyChange := Visit(cfg, g, cfg.exitBlock, perMI, start, visited, anyChange);
    visited := visited + {cfg.IndexOf(cfg.exitBlock)};
    AllVisited(cfg, visited);
  }

  ghost predicate Untouched(cfg: VectorCFG)
    reads cfg.blocks`liveIns
  {
    forall b: VectorMBB | b in cfg.blocks :: b.liveIns == []
  }

  lemma EmptyIsGrowing(cfg: VectorCFG)
    requires cfg.Valid() && Untouched(cfg)
    ensures AllCanonical(cfg) && Growing(cfg.Graph(), cfg.LiveInState())
  {
    var x := cfg.LiveInState();
    forall i | 0 <= i < |x| ensures x[i] == {} {
      assert cfg.blocks[i] in cfg.blocks;
    }
  }

  /** Of the unreserved registers the entry holds those that some path from the
      instruction reads before writing, of the reserved ones those carried to such a
      read in the block or as parts of unreserved ones. */
  ghost predicate EntryExact(g: Graph, b: nat, k: nat, entry: set<Reg>)
    requires b < |g.code| == |g.succ|
  {
    && entry <= g.ri.regs
    && (forall r | r in g.ri.regs && r !in g.ri.reserved :: r in entry <==> ReadLater(g, r, b, k))
    && (forall r | r in g.ri.regs :: r in entry <==> CarriedLater(g, r, b, k))
  }

  /** Every instruction of the graph has an entry, and it is exact. */
  ghost predicate PathExact(g: Graph, live: map<nat, set<Reg>>)
    requires |g.code| == |g.succ|
  {
    forall b, k | 0 <= b < |g.code| && 0 <= k < |g.code[b]| ::
      g.code[b][k].id in live && EntryExact(g, b, k, live[g.code[b][k].id])
  }

  lemma QuietSweepIsExact(g: Graph, x: State, live: map<nat, set<Reg>>, start: State, visited: set<nat>)
    requires g.Valid() && SweepInv(g, x, live, start, visited, false) && forall i: nat | i < |x| :: i in visited
    ensures IsLeastSolution(g, x) && forall b | 0 <= b < |x| :: EntriesOf(g, x, b, live)
    ensures PathExact(g, live)
  {
    forall b, k | 0 <= b < |x| && 0 <= k < |g.code[b]|
      ensures g.code[b][k].id in live && EntryExact(g, b, k, live[g.code[b][k].id])
    {
      assert EntriesOf(g, x, b, live);
      assert live[g.code[b][k].id] == LiveAt(g, x, b, k);
      LiveBeforeInRange(g.ri, g.code[b], k, LiveOut(g, x, b));
      forall r | r in g.ri.regs
        ensures r !in g.ri.reserved ==> (r in live[g.code[b][k].id] <==> ReadLater(g, r, b, k))
        ensures r in live[g.code[b][k].id] <==> CarriedLater(g, r, b, k)
      {
        LiveIffCarried(g, x, b, k, r);
        if r !in g.ri.reserved {
          LiveIffReadLater(g, x, b, k, r);
        }
      }
    }
  }

  /** Sweeps until nothing changes. The live-in lists then stand for the least
      solution, and every entry, none stale, is computed from it. */
  method RecomputeLiveIns(cfg: VectorCFG, perMI: InstrLiveness)
    requires cfg.Valid() && Untouched(cfg)
    modifies cfg.blocks`liveIns, perMI
    ensures IsLeastSolution(cfg.Graph(), cfg.LiveInState())
    ensures forall b | 0 <= b < |cfg.blocks| :: EntriesOf(cfg.Graph(), cfg.LiveInState(), b, perMI.live)
    ensures PathExact(cfg.Graph(), perMI.live)
    ensures perMI.live - cfg.Ids() == old(perMI.live) - cfg.Ids()
  {
    EmptyIsGrowing(cfg);
    ghost var g := cfg.Graph();
    while true
      invariant Sweeping(cfg, g, perMI, cfg.LiveInState(), {}, false)
      invariant perMI.live - cfg.Ids() == old(perMI.live) - cfg.Ids()
      decreases Room(g.ri.regs, cfg.LiveInState())
    {
      var anyChange, visited := Sweep(cfg, g, perMI);
      if !anyChange {
        QuietSweepIsExact(g, cfg.LiveInState(), perMI.live, cfg.LiveInState(), visited);
        return;
      }
    }
  }
}
