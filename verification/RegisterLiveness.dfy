/** The liveness analysis of a module, from its machine functions to the map. */
module RegisterLiveness {
  import opened Wrappers
  import opened Registers
  import opened Dataflow
  import opened VectorCfg
  import opened VectorSplit
  import opened VectorBuild
  import opened Liveness

  /** The identities of a function's instructions. */
  ghost function IdsIn(mf: Function): set<nat> {
    set m, k | 0 <= m < |mf| && 0 <= k < |mf[m].code| :: mf[m].code[k].mi.id
  }

  ghost function GraphIds(g: Graph): set<nat> {
    set b, k | 0 <= b < |g.code| && 0 <= k < |g.code[b]| :: g.code[b][k].id
  }

  /** Where an instruction of a block is in its parts. */
  lemma {:induction false} PartWith(parts: seq<seq<Instr>>, at: nat) returns (k: nat, x: nat)
    requires at < |Concat(parts)|
    ensures k < |parts| && x < |parts[k]| && parts[k][x] == Concat(parts)[at]
    decreases |parts|
  {
    var n := |parts| - 1;
    if at < |Concat(parts[..n])| {
      k, x := PartWith(parts[..n], at);
    } else {
      k, x := n, at - |Concat(parts[..n])|;
    }
  }

  /** The pieces hold the instructions of the function, all of them and no others. */
  lemma GraphHasAll(ri: RegInfo, mf: Function)
    ensures GraphIds(FunctionGraph(ri, mf)) == IdsIn(mf)
  {
    hide NodesOf, CodeAt, Parts, PartsOf;
    var g, nodes := FunctionGraph(ri, mf), NodesOf(mf, |mf|);
    forall b, k | 0 <= b < |g.code| && 0 <= k < |g.code[b]| ensures g.code[b][k].id in IdsIn(mf) {
      var at := PlaceOf(mf, nodes[b], k);
      assert mf[nodes[b].mbb].code[at].mi.id in IdsIn(mf);
    }
    forall m, k | 0 <= m < |mf| && 0 <= k < |mf[m].code| ensures mf[m].code[k].mi.id in GraphIds(g) {
      var b, x := NodeWith(mf, m, k);
      assert g.code[b][x].id in GraphIds(g);
    }
  }

  lemma NodeWith(mf: Function, m: nat, k: nat) returns (b: nat, x: nat)
    requires m < |mf| && k < |mf[m].code|
    ensures var nodes := NodesOf(mf, |mf|);
            b < |nodes| && x < |CodeAt(mf, nodes[b])| && CodeAt(mf, nodes[b])[x] == mf[m].code[k].mi
  {
    hide NodesOf, PartsOf, Concat, JoinsOf;
    var code := mf[m].code;
    PartsAreUniform(code, |code|);
    assert code[..|code|] == code;
    var part;
    part, x := PartWith(Parts(mf[m]), k);
    NodesExact(mf, |mf|);
    assert IsNode(mf, |mf|, In(m, Part(part)));
    b :| 0 <= b < |NodesOf(mf, |mf|)| && NodesOf(mf, |mf|)[b] == In(m, Part(part));
  }

  lemma CfgIds(cfg: VectorCFG)
    requires cfg.Valid()
    ensures cfg.Ids() == GraphIds(cfg.Graph())
  {
    var g := cfg.Graph();
    forall i, k | 0 <= i < |cfg.blocks| && 0 <= k < |cfg.blocks[i].instructions|
      ensures cfg.blocks[i].instructions[k].id in GraphIds(g)
    {
      assert g.code[i][k].id in GraphIds(g);
    }
    forall i, k | 0 <= i < |g.code| && 0 <= k < |g.code[i]| ensures g.code[i][k].id in cfg.Ids() {
      assert cfg.blocks[i].instructions[k].id in cfg.Ids();
    }
  }

  /** Entries that are right stay so when others are overwritten. */
  lemma PathExactKept(g: Graph, m: map<nat, set<Reg>>, n: map<nat, set<Reg>>, ids: set<nat>)
    requires |g.code| == |g.succ| && PathExact(g, m) && m - ids == n - ids && ids !! GraphIds(g)
    ensures PathExact(g, n)
  {
    forall b, k | 0 <= b < |g.code| && 0 <= k < |g.code[b]|
      ensures g.code[b][k].id in n && EntryExact(g, b, k, n[g.code[b][k].id])
    {
      assert g.code[b][k].id in GraphIds(g);
      assert g.code[b][k].id in m - ids;
    }
  }

  /** The entries of a function's instructions are right. */
  ghost predicate Analyzed(ri: RegInfo, mf: Function, live: map<nat, set<Reg>>) {
    PathExact(FunctionGraph(ri, mf), live)
  }

  lemma AnalyzedKept(ri: RegInfo, mf: Function, m: map<nat, set<Reg>>, n: map<nat, set<Reg>>, ids: set<nat>)
    requires Analyzed(ri, mf, m) && m - ids == n - ids && ids !! IdsIn(mf)
    ensures Analyzed(ri, mf, n)
  {
    GraphHasAll(ri, mf);
    PathExactKept(FunctionGraph(ri, mf), m, n, ids);
  }

  lemma AnalyzedHasAll(ri: RegInfo, mf: Function, live: map<nat, set<Reg>>)
    requires Analyzed(ri, mf, live)
    ensures IdsIn(mf) <= live.Keys
  {
    GraphHasAll(ri, mf);
  }

  /** A module's functions; those without machine code are `None`. */
  type Functions = seq<Option<Function>>

  /** No two functions share an instruction. */
  ghost predicate Separate(mfs: Functions) {
    forall i, j | 0 <= i < j < |mfs| && mfs[i].Some? && mfs[j].Some? :: IdsIn(mfs[i].value) !! IdsIn(mfs[j].value)
  }

  ghost predicate Proper(ri: RegInfo, mfs: Functions) {
    Separate(mfs) && forall i | 0 <= i < |mfs| && mfs[i].Some? :: ProperFunction(ri, mfs[i].value)
  }

  ghost function AllIds(mfs: Functions, n: nat): set<nat>
    requires n <= |mfs|
  {
    set i, id | 0 <= i < n && mfs[i].Some? && id in IdsIn(mfs[i].value) :: id
  }

  /** Analyzes one function and leaves the entries of others alone. */
  method AnalyzeFunction(ri: RegInfo, mf: Function, perMI: InstrLiveness)
    requires ProperFunction(ri, mf)
    modifies perMI
    ensures Analyzed(ri, mf, perMI.live)
    ensures perMI.live - IdsIn(mf) == old(perMI.live) - IdsIn(mf)
  {
    hide FunctionGraph, IdsIn, GraphIds, ProperFunction, PathExact, IsLeastSolution, EntriesOf;
    var cfg := GetVectorCFG(ri, mf);
    CfgIds(cfg);
    GraphHasAll(ri, mf);
    RecomputeLiveIns(cfg, perMI);
  }

  /** The first `n` functions are analyzed, and the map is about nothing else. */
  ghost predicate AnalyzedUpTo(ri: RegInfo, mfs: Functions, n: nat, live: map<nat, set<Reg>>)
    requires n <= |mfs|
  {
    && live.Keys == AllIds(mfs, n)
    && (forall i | 0 <= i < n && mfs[i].Some? :: Analyzed(ri, mfs[i].value, live))
  }

  lemma AnalyzedMore(ri: RegInfo, mfs: Functions, n: nat, before: map<nat, set<Reg>>, after: map<nat, set<Reg>>)
    requires n < |mfs| && Proper(ri, mfs) && mfs[n].Some? && AnalyzedUpTo(ri, mfs, n, before)
    requires Analyzed(ri, mfs[n].value, after) && before - IdsIn(mfs[n].value) == after - IdsIn(mfs[n].value)
    ensures AnalyzedUpTo(ri, mfs, n + 1, after)
  {
    hide Analyzed, IdsIn, ProperFunction;
    var ids := IdsIn(mfs[n].value);
    forall i | 0 <= i < n && mfs[i].Some? ensures Analyzed(ri, mfs[i].value, after) {
      AnalyzedKept(ri, mfs[i].value, before, after, ids);
    }
    AnalyzedHasAll(ri, mfs[n].value, after);
    forall id ensures id in after.Keys <==> id in AllIds(mfs, n + 1) {
      assert id !in ids ==> (id in before <==> id in before - ids) && (id in after <==> id in after - ids);
      assert id in AllIds(mfs, n + 1) <==> id in AllIds(mfs, n) || id in ids;
    }
  }

  method AnalyzeFunctions(ri: RegInfo, mfs: Functions, perMI: InstrLiveness)
    requires Proper(ri, mfs) && perMI.live == map[]
    modifies perMI
    ensures AnalyzedUpTo(ri, mfs, |mfs|, perMI.live)
  {
    hide Analyzed, IdsIn, ProperFunction;
    for n := 0 to |mfs|
      invariant AnalyzedUpTo(ri, mfs, n, perMI.live)
    {
      if mfs[n].None? {
        assert AllIds(mfs, n + 1) == AllIds(mfs, n);
        continue;
      }
      ghost var before := perMI.live;
      AnalyzeFunction(ri, mfs[n].value, perMI);
      AnalyzedMore(ri, mfs, n, before, perMI.live);
    }
  }

  /** `entry` is what the function has to say about its instruction `id`. */
  ghost predicate ExactFor(ri: RegInfo, mf: Function, id: nat, entry: set<Reg>) {
    var g := FunctionGraph(ri, mf);
    forall b, k | 0 <= b < |g.code| && 0 <= k < |g.code[b]| && g.code[b][k].id == id :: EntryExact(g, b, k, entry)
  }

  /** The analysis result of a module: one map for all of its functions. */
  class AMDGPURegisterLiveness {
    const livenessMap: InstrLiveness
    ghost const ri: RegInfo
    ghost const mfs: Functions

    /** The map is the result for the functions `mfs`. */
    ghost predicate Valid()
      reads livenessMap
    {
      AnalyzedUpTo(ri, mfs, |mfs|, livenessMap.live)
    }

    constructor (ri: RegInfo, mfs: Functions)
      requires Proper(ri, mfs)
      ensures this.ri == ri && this.mfs == mfs && fresh(livenessMap) && Valid()
    {
      livenessMap := new InstrLiveness();
      this.ri, this.mfs := ri, mfs;
      new;
      AnalyzeFunctions(ri, mfs, livenessMap);
    }

    /** The live registers of an instruction, for those of the analyzed functions. */
    function GetMFLevelInstrLiveIns(mi: MachineInstr): (r: Option<set<Reg>>)
      requires Valid()
      reads livenessMap
      ensures r.Some? <==> mi.id in AllIds(mfs, |mfs|)
      ensures r.Some? ==> forall i | 0 <= i < |mfs| && mfs[i].Some? :: ExactFor(ri, mfs[i].value, mi.id, r.value)
    {
      if mi.id in livenessMap.live then Some(livenessMap.live[mi.id]) else None
    }
  }
}
