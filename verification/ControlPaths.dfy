/** Whether liveness is exact on the paths that control can take, the graph having
    edges besides. */
module ControlPaths {
  import opened Registers
  import opened Dataflow
  import opened VectorSplit
  import opened VectorBuild
  import opened Liveness

  /** An edge that control, or a lane skipping instructions, can take. */
  ghost predicate ControlEdge(mf: Function, a: Node, b: Node) {
    LeadsInside(mf, a, b) || Forward(mf, a, b)
  }

  ghost function ControlSuccs(mf: Function, nodes: seq<Node>): (succs: seq<set<nat>>)
    ensures |succs| == |nodes|
    ensures forall i | 0 <= i < |nodes| :: succs[i] == set j: nat | j < |nodes| && ControlEdge(mf, nodes[i], nodes[j])
  {
    seq(|nodes|, i requires 0 <= i < |nodes| => set j: nat | j < |nodes| && ControlEdge(mf, nodes[i], nodes[j]))
  }

  /** The graph without the edges that go back. */
  ghost function ControlGraph(ri: RegInfo, mf: Function): Graph {
    FunctionGraph(ri, mf).(succ := ControlSuccs(mf, NodesOf(mf, |mf|)))
  }

  ghost predicate SubGraph(g: Graph, h: Graph) {
    && g.ri == h.ri && g.code == h.code && |g.succ| == |h.succ|
    && forall b | 0 <= b < |g.succ| :: g.succ[b] <= h.succ[b]
  }

  /** More edges make no read disappear. */
  lemma ReadLaterGrows(g: Graph, h: Graph, r: Reg, b: nat, k: nat)
    requires SubGraph(g, h) && ReadLater(g, r, b, k)
    ensures ReadLater(h, r, b, k)
  {
    var path :| ReachesRead(g, r, path) && path[0] == Point(b, k);
    forall i | 0 <= i < |path| - 1 ensures Preserves(h, r, path[i], path[i + 1]) {
      assert Preserves(g, r, path[i], path[i + 1]);
    }
    assert ReachesRead(h, r, path);
  }

  lemma ControlIsSubGraph(ri: RegInfo, mf: Function)
    requires SuccsInside(mf)
    ensures SubGraph(ControlGraph(ri, mf), FunctionGraph(ri, mf))
  {
    hide NodesOf, CodeAt, LeadsInside, Forward, Links;
    var g, h, nodes := ControlGraph(ri, mf), FunctionGraph(ri, mf), NodesOf(mf, |mf|);
    forall b, s | 0 <= b < |g.succ| && s in g.succ[b] ensures s in h.succ[b] {
      LinksExact(mf, nodes[b], nodes[s]);
    }
  }

  /** Nothing that is read on some control path is missed. */
  lemma NoneMissed(ri: RegInfo, mf: Function, live: map<nat, set<Reg>>, b: nat, k: nat, r: Reg)
    requires SuccsInside(mf) && PathExact(FunctionGraph(ri, mf), live) && r in ri.regs && r !in ri.reserved
    requires var g := ControlGraph(ri, mf); b < |g.code| && k < |g.code[b]| && ReadLater(g, r, b, k)
    ensures var id := ControlGraph(ri, mf).code[b][k].id; id in live && r in live[id]
  {
    hide FunctionGraph, ReadLater;
    var g, h := ControlGraph(ri, mf), FunctionGraph(ri, mf);
    ControlIsSubGraph(ri, mf);
    ReadLaterGrows(g, h, r, b, k);
    FunctionGraphShape(ri, mf);
    assert EntryExact(h, b, k, live[h.code[b][k].id]);
  }

  lemma FunctionGraphShape(ri: RegInfo, mf: Function)
    ensures var g := FunctionGraph(ri, mf); g.ri == ri && |g.code| == |g.succ|
  {
  }

  // ---- when nothing is added

  /** Blocks that share a successor share all of them. */
  ghost predicate SuccsAgree(mf: Function) {
    forall p, q, m, s | 0 <= p < |mf| && 0 <= q < |mf| && m in mf[p].succs && m in mf[q].succs && s in mf[p].succs ::
      s in mf[q].succs
  }

  /** At every instruction, the graph with and without the edges that go back tell
      the same about every register. */
  ghost predicate SameReads(ri: RegInfo, mf: Function) {
    var g := FunctionGraph(ri, mf);
    forall b, k, r | 0 <= b < |g.code| && 0 <= k < |g.code[b]| :: ReadLater(g, r, b, k) <==>
        ReadLater(ControlGraph(ri, mf), r, b, k)
  }

  /** Neither of the two kinds of nodes a lane can only come from elsewhere to. */
  ghost predicate Inner(a: Node) {
    a != FunctionEntry && (a.In? ==> a.piece != EntryNotTaken)
  }

  lemma EdgeKinds(mf: Function, a: Node, b: Node)
    requires SuccsInside(mf) && HasEdge(mf, a, b)
    ensures ControlEdge(mf, a, b) || Backward(mf, a, b)
    ensures a != FunctionExit && b != FunctionEntry
    ensures Inner(a) ==> ControlEdge(mf, a, b)
    ensures Inner(a) && !Inner(b) ==> a.In? && a.mbb < |mf| && a.piece == ExitNotTaken && b.mbb in mf[a.mbb].succs
    ensures !Inner(b) ==> !Backward(mf, a, b)
    ensures a.In? && a.piece == ExitNotTaken ==> Forward(mf, a, b)
    ensures a.In? && a.piece == EntryNotTaken ==> Inner(b)
  {
    LinksExact(mf, a, b);
    if LeadsInside(mf, a, b) {
      var joins := JoinsOf(mf[a.mbb].code, |mf[a.mbb].code|);
      forall k: nat | k <= |joins| {
        NextOfLonger(joins, false, k);
      }
    }
  }

  /** The nodes along a path step. */
  lemma BlockStep(ri: RegInfo, mf: Function, r: Reg, p: Point, q: Point)
    requires SuccsInside(mf)
    requires Preserves(FunctionGraph(ri, mf), r, p, q) && p.idx == |FunctionGraph(ri, mf).code[p.block]|
    ensures var nodes := NodesOf(mf, |mf|);
            p.block < |nodes| && q.block < |nodes| && q.idx == 0 && HasEdge(mf, nodes[p.block], nodes[q.block])
  {
    hide NodesOf, CodeAt, HasEdge;
  }

  /** A step along an edge control can take. */
  lemma ControlStep(ri: RegInfo, mf: Function, r: Reg, p: Point, q: Point)
    requires SuccsInside(mf) && Preserves(FunctionGraph(ri, mf), r, p, q) &&
              ReadLater(ControlGraph(ri, mf), r, q.block, q.idx)
    requires var nodes := NodesOf(mf, |mf|);
             p.idx == |FunctionGraph(ri, mf).code[p.block]| ==>
                 p.block < |nodes| && q.block < |nodes| && ControlEdge(mf, nodes[p.block], nodes[q.block])
    ensures ReadLater(ControlGraph(ri, mf), r, p.block, p.idx)
  {
    hide NodesOf, CodeAt, HasEdge, ControlEdge, ReadLater;
    assert Preserves(ControlGraph(ri, mf), r, p, q);
    ReadLaterStep(ControlGraph(ri, mf), r, p, q);
  }

  lemma PathRest(g: Graph, r: Reg, path: seq<Point>, n: nat)
    requires ReachesRead(g, r, path) && n < |path|
    ensures ReachesRead(g, r, path[n..])
  {
    forall i | 0 <= i < |path[n..]| - 1 ensures Preserves(g, r, path[n..][i], path[n..][i + 1]) {
      assert Preserves(g, r, path[n + i], path[n + i + 1]);
    }
  }

  lemma PathPush(g: Graph, r: Reg, p: Point, path: seq<Point>)
    requires ReachesRead(g, r, path) && Preserves(g, r, p, path[0])
    ensures ReachesRead(g, r, [p] + path)
  {
    var longer := [p] + path;
    assert forall i | 0 < i < |longer| - 1 :: longer[i] == path[i - 1] && longer[i + 1] == path[i];
  }

  /** Past a node without instructions, at the start of a path. */
  lemma PassesEmpty(ri: RegInfo, mf: Function, r: Reg, path: seq<Point>)
    requires SuccsInside(mf) && ReachesRead(FunctionGraph(ri, mf), r, path)
    requires
      var nodes := NodesOf(mf, |mf|);
      path[0].block < |nodes| && CodeAt(mf, nodes[path[0].block]) == [] && path[0].idx == 0
    ensures var nodes := NodesOf(mf, |mf|);
            |path| > 1 && path[1].block < |nodes| && path[1].idx == 0 &&
                HasEdge(mf, nodes[path[0].block], nodes[path[1].block])
  {
    hide NodesOf, CodeAt, HasEdge;
    var g := FunctionGraph(ri, mf);
    assert g.code[path[0].block] == [];
    assert |path| > 1;
    assert Preserves(g, r, path[0], path[1]);
    BlockStep(ri, mf, r, path[0], path[1]);
  }

  /** Back over an edge and on again is a detour: one edge leads there directly. */
  lemma Detour(ri: RegInfo, mf: Function, r: Reg, path: seq<Point>)
    requires SuccsInside(mf) && SuccsAgree(mf) && ReachesRead(FunctionGraph(ri, mf), r, path) && |path| > 2
    requires var nodes := NodesOf(mf, |mf|); var a, b := path[0].block, path[1].block;
             a < |nodes| && b < |nodes| && path[2].block < |nodes| && path[0].idx == |FunctionGraph(ri, mf).code[a]| &&
                 path[2].idx == 0
             && HasEdge(mf, nodes[a], nodes[b]) && Inner(nodes[a]) && Backward(mf, nodes[b], nodes[path[2].block])
    ensures |path| > 3 && ReachesRead(FunctionGraph(ri, mf), r, [path[0]] + path[3..])
  {
    hide NodesOf, Parts, HasEdge;
    var g, nodes := FunctionGraph(ri, mf), NodesOf(mf, |mf|);
    var a, b, d := nodes[path[0].block], nodes[path[1].block], nodes[path[2].block];
    EdgeKinds(mf, a, b);
    PathRest(g, r, path, 2);
    PassesEmpty(ri, mf, r, path[2..]);
    var e := nodes[path[3].block];
    EdgeKinds(mf, d, e);
    PathRest(g, r, path, 3);
    if e == FunctionExit {
      PassesEmpty(ri, mf, r, path[3..]);
      EdgeKinds(mf, e, nodes[path[4].block]);
    } else {
      assert e.mbb in mf[d.mbb].succs && e.mbb in mf[a.mbb].succs;
      DirectEdge(mf, a, e);
      PathPush(g, r, path[0], path[3..]);
    }
  }

  lemma DirectEdge(mf: Function, a: Node, e: Node)
    requires SuccsInside(mf) && Forward(mf, a, e)
    ensures HasEdge(mf, a, e)
  {
    LinksExact(mf, a, e);
  }

  /** Where blocks that share a successor share all, every read is on a control path. */
  lemma {:induction false} NoDetour(ri: RegInfo, mf: Function, r: Reg, path: seq<Point>)
    requires SuccsInside(mf) && SuccsAgree(mf) && ReachesRead(FunctionGraph(ri, mf), r, path)
    requires var nodes := NodesOf(mf, |mf|); path[0].block < |nodes| && Inner(nodes[path[0].block])
    ensures ReadLater(ControlGraph(ri, mf), r, path[0].block, path[0].idx)
    decreases |path|
  {
    hide NodesOf, Parts, HasEdge, ControlEdge, SuccsAgree;
    var g, nodes := FunctionGraph(ri, mf), NodesOf(mf, |mf|);
    var p := path[0];
    if |path| == 1 {
      assert ReachesRead(ControlGraph(ri, mf), r, path);
      return;
    }
    var q := path[1];
    assert Preserves(g, r, p, q);
    PathRest(g, r, path, 1);
    if p.idx < |g.code[p.block]| {
      NoDetour(ri, mf, r, path[1..]);
      ControlStep(ri, mf, r, p, q);
      return;
    }
    BlockStep(ri, mf, r, p, q);
    var a, b := nodes[p.block], nodes[q.block];
    EdgeKinds(mf, a, b);
    if Inner(b) {
      NoDetour(ri, mf, r, path[1..]);
      ControlStep(ri, mf, r, p, q);
      return;
    }
    PassesEmpty(ri, mf, r, path[1..]);
    var d := nodes[path[2].block];
    EdgeKinds(mf, b, d);
    if Backward(mf, b, d) {
      Detour(ri, mf, r, path);
      NoDetour(ri, mf, r, [p] + path[3..]);
    } else {
      PathRest(g, r, path, 2);
      NoDetour(ri, mf, r, path[2..]);
      assert Preserves(g, r, q, path[2]);
      ControlStep(ri, mf, r, q, path[2]);
      ControlStep(ri, mf, r, p, q);
    }
  }

  lemma AgreeingIsExact(ri: RegInfo, mf: Function)
    requires SuccsInside(mf) && SuccsAgree(mf)
    ensures SameReads(ri, mf)
  {
    hide NodesOf, Parts, HasEdge, ControlEdge, SuccsAgree;
    var g, nodes := FunctionGraph(ri, mf), NodesOf(mf, |mf|);
    ControlIsSubGraph(ri, mf);
    forall b, k, r | 0 <= b < |g.code| && 0 <= k < |g.code[b]|
      ensures ReadLater(g, r, b, k) <==> ReadLater(ControlGraph(ri, mf), r, b, k)
    {
      if ReadLater(g, r, b, k) {
        var path :| ReachesRead(g, r, path) && path[0] == Point(b, k);
        assert CodeAt(mf, nodes[b]) != [];
        NoDetour(ri, mf, r, path);
      }
      if ReadLater(ControlGraph(ri, mf), r, b, k) {
        ReadLaterGrows(ControlGraph(ri, mf), g, r, b, k);
      }
    }
  }

  // ---- when something is added

  /** The same blocks with other instructions in them. */
  ghost predicate SameShape(mf: Function, other: Function) {
    |mf| == |other| && forall n | 0 <= n < |mf| :: mf[n].succs == other[n].succs && mf[n].isReturn == other[n].isReturn
  }

  const ONE_REG := RegInfo({0}, map[0 := {0}], map[0 := {0}], {})

  function Scalar(id: nat, defs: set<Reg>, uses: set<Reg>): Instr {
    Instr(MachineInstr(id, defs, {}, uses), false, false)
  }

  /** Register 0 is read first in block `s`, and written first in all but `s` and `q`. */
  function WitnessCode(q: nat, s: nat, n: nat): (code: seq<Instr>)
    ensures |code| == 3
  {
    [ Scalar(3 * n, if n == s || n == q then {} else {0}, if n == s then {0} else {}),
      Scalar(3 * n + 1, {}, {}),
      Instr(MachineInstr(3 * n + 2, {}, {}, {}), true, false) ]
  }

  function Witness(mf: Function, q: nat, s: nat): (w: Function)
    ensures |w| == |mf|
    ensures forall n | 0 <= n < |mf| :: w[n] == BasicBlock(WitnessCode(q, s, n), mf[n].succs, mf[n].isReturn)
  {
    seq(|mf|, n requires 0 <= n < |mf| => BasicBlock(WitnessCode(q, s, n), mf[n].succs, mf[n].isReturn))
  }

  lemma WitnessProper(mf: Function, q: nat, s: nat)
    requires SuccsInside(mf)
    ensures ProperFunction(ONE_REG, Witness(mf, q, s)) && SameShape(mf, Witness(mf, q, s))
  {
    var w := Witness(mf, q, s);
    var codes: seq<seq<MachineInstr>> := BlockCodes(w, |w|);
    forall n: nat | n < |w| ensures |w[n].code| == 3 && w[n].code == WitnessCode(q, s, n) {
    }
    hide Witness;
    forall n: nat, k: nat | n < |w| && k < 3 ensures codes[n][k].id == 3 * n + k && w[n].code[k].mi.Valid(ONE_REG) {
      WitnessInstr(q, s, n, k);
    }
    hide WitnessCode;
    assert DistinctIds(codes);
  }

  lemma WitnessInstr(q: nat, s: nat, n: nat, k: nat)
    requires k < 3
    ensures var mi := WitnessCode(q, s, n)[k].mi; mi.id == 3 * n + k && mi.Valid(ONE_REG)
  {
  }

  /** Two scalar instructions and a vector one make three parts. */
  lemma ThreeParts(code: seq<Instr>)
    requires |code| == 3 && !code[0].isVector && !code[1].isVector && code[2].isVector
    ensures JoinsOf(code, 3) == [false, true, false]
    ensures PartsOf(code, 3) == [[], [code[0], code[1]], [code[2]]]
  {
    var none: seq<Instr> := [];
    assert none + [code[0]] == [code[0]] && [code[0]] + [code[1]] == [code[0], code[1]] &&
        none + [code[2]] == [code[2]];
    assert JoinsOf(code, 0) == [false] && PartsOf(code, 0) == [none];
    assert JoinsOf(code, 1) == [false, true] && PartsOf(code, 1) == [none, [code[0]]];
    assert JoinsOf(code, 2) == [false, true] && PartsOf(code, 2) == [none, [code[0], code[1]]];
  }

  lemma WitnessLeads(a: Piece, b: Piece)
    ensures Leads([false, true, false], a, b) <==>
              (a, b) in {(Part(0), Part(1)), (Part(1), Part(2)), (Part(1), ExitNotTaken), (Part(2), ExitTaken),
                         (EntryNotTaken, Part(1))}
  {
    var joins := [false, true, false];
    assert Next(joins, 1) == Part(1);
    assert Next(joins, 3) == ExitNotTaken;
    assert Next(joins, 2) == ExitNotTaken;
  }

  lemma WitnessInside(mf: Function, q: nat, s: nat, a: Node, b: Node)
    ensures LeadsInside(Witness(mf, q, s), a, b) <==>
              a.In? && b.In? && a.mbb == b.mbb < |mf| && Leads([false, true, false], a.piece, b.piece)
  {
    hide Leads, JoinsOf;
    if a.In? && b.In? && a.mbb == b.mbb < |mf| {
      ThreeParts(WitnessCode(q, s, a.mbb));
    }
  }

  /** The code of the pieces of a witness. */
  lemma WitnessCodeAt(mf: Function, q: nat, s: nat, a: Node)
    ensures var code := CodeAt(Witness(mf, q, s), a);
            if a.In? && a.mbb < |mf| && a.piece in {Part(1), Part(2)} then
              var c := WitnessCode(q, s, a.mbb);
              code == if a.piece == Part(1) then [c[0].mi, c[1].mi] else [c[2].mi]
            else code == []
  {
    hide JoinsOf, PartsOf;
    if a.In? && a.mbb < |mf| && a.piece.Part? {
      ThreeParts(WitnessCode(q, s, a.mbb));
    }
  }

  /** Where control can bring a lane from the second instruction of block `q` on,
      register 0 being neither read nor written. */
  ghost predicate Away(q: nat, s: nat, a: Node, idx: nat) {
    a == FunctionExit || (a.In? && if a.mbb == q then q == s ==>
                          PastRead(a.piece, idx) else a.mbb != s && BeforeWrite(a.piece, idx))
  }

  ghost predicate PastRead(a: Piece, idx: nat) {
    a in {ExitTaken, ExitNotTaken, Part(2)} || (a == Part(1) && idx > 0)
  }

  ghost predicate BeforeWrite(a: Piece, idx: nat) {
    a in {Part(0), EntryNotTaken} || (a == Part(1) && idx == 0)
  }

  lemma AwayReadsNot(mf: Function, q: nat, s: nat, a: Node, idx: nat)
    requires Away(q, s, a, idx)
    ensures var code := CodeAt(Witness(mf, q, s), a);
            idx < |code| ==>
              !Uses(ONE_REG, code[idx], 0) && (!Writes(ONE_REG, code[idx], 0) ==> Away(q, s, a, idx + 1))
  {
    hide CodeAt;
    WitnessCodeAt(mf, q, s, a);
    if a.In? && a.mbb != q && a.piece == Part(1) {
      assert 0 in ONE_REG.aliases[0];
    }
  }

  lemma AwayLeaves(mf: Function, q: nat, s: nat, a: Node, idx: nat, b: Node)
    requires q < |mf| && s !in mf[q].succs && Away(q, s, a, idx) && idx == |CodeAt(Witness(mf, q, s), a)|
    requires ControlEdge(Witness(mf, q, s), a, b)
    ensures Away(q, s, b, 0)
  {
    hide CodeAt, LeadsInside, Leads;
    var w := Witness(mf, q, s);
    WitnessCodeAt(mf, q, s, a);
    WitnessInside(mf, q, s, a, b);
    if LeadsInside(w, a, b) {
      WitnessLeads(a.piece, b.piece);
    }
  }

  /** On control paths block `q` never comes to the read in `s`. */
  lemma {:induction false} AwayForever(mf: Function, q: nat, s: nat, path: seq<Point>)
    requires q < |mf| && s !in mf[q].succs
    requires var w := Witness(mf, q, s); var nodes := NodesOf(w, |w|);
             path != [] && path[0].block < |nodes| && Away(q, s, nodes[path[0].block], path[0].idx)
    ensures !ReachesRead(ControlGraph(ONE_REG, Witness(mf, q, s)), 0, path)
    decreases |path|
  {
    hide NodesOf, CodeAt, ControlEdge, Away, Writes, Uses, Witness;
    var w := Witness(mf, q, s);
    var g, nodes := ControlGraph(ONE_REG, w), NodesOf(w, |w|);
    if ReachesRead(g, 0, path) {
      var p := path[0];
      AwayReadsNot(mf, q, s, nodes[p.block], p.idx);
      assert |path| > 1;
      assert Preserves(g, 0, p, path[1]);
      if p.idx == |g.code[p.block]| {
        AwayLeaves(mf, q, s, nodes[p.block], p.idx, nodes[path[1].block]);
      }
      PathRest(g, 0, path, 1);
      AwayForever(mf, q, s, path[1..]);
    }
  }

  /** The node's place in the graph. */
  lemma NodeIndex(mf: Function, a: Node) returns (i: nat)
    requires IsNode(mf, |mf|, a)
    ensures i < |NodesOf(mf, |mf|)| && NodesOf(mf, |mf|)[i] == a
  {
    NodesExact(mf, |mf|);
    i :| 0 <= i < |NodesOf(mf, |mf|)| && NodesOf(mf, |mf|)[i] == a;
  }

  ghost predicate ReadFrom(mf: Function, a: Node, idx: nat) {
    exists i: nat :: i < |NodesOf(mf, |mf|)| && NodesOf(mf, |mf|)[i] == a &&
        ReadLater(FunctionGraph(ONE_REG, mf), 0, i, idx)
  }

  /** What is read later at the end of an edge is so at its beginning. */
  lemma ReadOverEdge(mf: Function, a: Node, b: Node)
    requires SuccsInside(mf) && HasEdge(mf, a, b) && ReadFrom(mf, b, 0)
    ensures ReadFrom(mf, a, |CodeAt(mf, a)|)
  {
    hide NodesOf, CodeAt, HasEdge, ReadLater;
    var g, nodes := FunctionGraph(ONE_REG, mf), NodesOf(mf, |mf|);
    var j: nat :| j < |nodes| && nodes[j] == b && ReadLater(g, 0, j, 0);
    EdgeInside(mf, a, b);
    var i := NodeIndex(mf, a);
    assert Preserves(g, 0, Point(i, |g.code[i]|), Point(j, 0));
    ReadLaterStep(g, 0, Point(i, |g.code[i]|), Point(j, 0));
  }

  /** Going back over an edge, the read in `s` is reached from block `q`. */
  lemma ReadOverBackEdge(mf: Function, p: nat, q: nat, m: nat, s: nat)
    requires SuccsInside(mf) && p < |mf| && q < |mf| && m in mf[p].succs && m in mf[q].succs && s in mf[p].succs
    ensures ReadFrom(Witness(mf, q, s), In(q, Part(1)), 2)
  {
    hide NodesOf, CodeAt, Leads, ReadFrom, LeadsInside, Links, Gen;
    var w := Witness(mf, q, s);
    WitnessReads(mf, q, s);
    WitnessEdge(mf, q, s, In(s, EntryNotTaken), In(s, Part(1)));
    WitnessEdge(mf, q, s, In(p, ExitNotTaken), In(s, EntryNotTaken));
    WitnessEdge(mf, q, s, In(m, EntryNotTaken), In(p, ExitNotTaken));
    WitnessEdge(mf, q, s, In(q, ExitNotTaken), In(m, EntryNotTaken));
    WitnessEdge(mf, q, s, In(q, Part(1)), In(q, ExitNotTaken));
    ReadOverEdge(w, In(s, EntryNotTaken), In(s, Part(1)));
    WitnessCodeAt(mf, q, s, In(s, EntryNotTaken));
    ReadOverEdge(w, In(p, ExitNotTaken), In(s, EntryNotTaken));
    WitnessCodeAt(mf, q, s, In(p, ExitNotTaken));
    ReadOverEdge(w, In(m, EntryNotTaken), In(p, ExitNotTaken));
    WitnessCodeAt(mf, q, s, In(m, EntryNotTaken));
    ReadOverEdge(w, In(q, ExitNotTaken), In(m, EntryNotTaken));
    WitnessCodeAt(mf, q, s, In(q, ExitNotTaken));
    ReadOverEdge(w, In(q, Part(1)), In(q, ExitNotTaken));
    WitnessCodeAt(mf, q, s, In(q, Part(1)));
  }

  lemma WitnessEdge(mf: Function, q: nat, s: nat, a: Node, b: Node)
    requires SuccsInside(mf) && a.In? && b.In? && a.mbb < |mf| && b.mbb < |mf|
    requires || (a.mbb == b.mbb && (a.piece, b.piece) in {(EntryNotTaken, Part(1)), (Part(1), ExitNotTaken)})
             || (b.mbb in mf[a.mbb].succs && (a.piece, b.piece) == (ExitNotTaken, EntryNotTaken))
             || (a.mbb in mf[b.mbb].succs && (a.piece, b.piece) == (EntryNotTaken, ExitNotTaken))
    ensures HasEdge(Witness(mf, q, s), a, b)
  {
    hide Leads, LeadsInside, Links;
    WitnessInside(mf, q, s, a, b);
    WitnessLeads(a.piece, b.piece);
    LinksExact(Witness(mf, q, s), a, b);
  }

  lemma WitnessReads(mf: Function, q: nat, s: nat)
    requires s < |mf|
    ensures ReadFrom(Witness(mf, q, s), In(s, Part(1)), 0)
  {
    hide NodesOf, CodeAt, Parts;
    var w := Witness(mf, q, s);
    WitnessNode(mf, q, s, s);
    var i := NodeIndex(w, In(s, Part(1)));
    WitnessCodeAt(mf, q, s, In(s, Part(1)));
    assert 0 in ONE_REG.subs[0];
    var path := [Point(i, 0)];
    assert ReachesRead(FunctionGraph(ONE_REG, w), 0, path) && path[0] == Point(i, 0);
  }

  lemma WitnessNode(mf: Function, q: nat, s: nat, n: nat)
    requires n < |mf|
    ensures IsNode(Witness(mf, q, s), |mf|, In(n, Part(1)))
  {
    hide PartsOf, JoinsOf;
    ThreeParts(WitnessCode(q, s, n));
  }

  /** Where two blocks share a successor and not another one, some code is told to
      read a register that no control path reads. */
  lemma DisagreeingIsInexact(mf: Function, p: nat, q: nat, m: nat, s: nat)
    requires SuccsInside(mf) && p < |mf| && q < |mf| && m in mf[p].succs && m in mf[q].succs
    requires s in mf[p].succs && s !in mf[q].succs
    ensures !SameReads(ONE_REG, Witness(mf, q, s))
  {
    hide NodesOf, CodeAt, Writes, Uses;
    var w := Witness(mf, q, s);
    var g, c, nodes := FunctionGraph(ONE_REG, w), ControlGraph(ONE_REG, w), NodesOf(w, |w|);
    ReadOverBackEdge(mf, p, q, m, s);
    var i: nat :| i < |nodes| && nodes[i] == In(q, Part(1)) && ReadLater(g, 0, i, 2);
    WitnessCodeAt(mf, q, s, nodes[i]);
    IdleStep(mf, q, s, i);
    if ReadLater(c, 0, i, 1) {
      var path :| ReachesRead(c, 0, path) && path[0] == Point(i, 1);
      AwayForever(mf, q, s, path);
    }
  }

  lemma IdleStep(mf: Function, q: nat, s: nat, i: nat)
    requires var w := Witness(mf, q, s); var nodes := NodesOf(w, |w|);
             q < |mf| && i < |nodes| && nodes[i] == In(q, Part(1)) && ReadLater(FunctionGraph(ONE_REG, w), 0, i, 2)
    ensures ReadLater(FunctionGraph(ONE_REG, Witness(mf, q, s)), 0, i, 1)
  {
    hide NodesOf, CodeAt, ReadLater;
    var g := FunctionGraph(ONE_REG, Witness(mf, q, s));
    WitnessCodeAt(mf, q, s, In(q, Part(1)));
    assert Preserves(g, 0, Point(i, 1), Point(i, 2));
    ReadLaterStep(g, 0, Point(i, 1), Point(i, 2));
  }

  /** The edges that go back change the analysis of no code at all exactly when blocks
      that share a successor share all of them. */
  lemma ExactExactlyWhen(mf: Function)
    requires SuccsInside(mf)
    ensures SuccsAgree(mf) <==>
              forall ri, other | SameShape(mf, other) && ProperFunction(ri, other) :: SameReads(ri, other)
  {
    hide SameReads, ProperFunction, Witness;
    if SuccsAgree(mf) {
      forall ri, other | SameShape(mf, other) && ProperFunction(ri, other) ensures SameReads(ri, other) {
        ShapeKeeps(mf, other);
        AgreeingIsExact(ri, other);
      }
    } else {
      var p, q, m, s :| 0 <= p < |mf| && 0 <= q < |mf| && m in mf[p].succs && m in mf[q].succs && s in mf[p].succs &&
          s !in mf[q].succs;
      WitnessProper(mf, q, s);
      DisagreeingIsInexact(mf, p, q, m, s);
    }
  }

  lemma ShapeKeeps(mf: Function, other: Function)
    requires SuccsInside(mf) && SuccsAgree(mf) && SameShape(mf, other)
    ensures SuccsInside(other) && SuccsAgree(other)
  {
  }
}
