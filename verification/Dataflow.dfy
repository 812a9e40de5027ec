/** The backward liveness problem on a fixed graph of blocks: its equations, its
    least solution, and what that solution says about execution paths. */
module Dataflow {
  import opened Registers

  /** `code[b]` are the instructions of block `b`, `succ[b]` its successors. */
  datatype Graph = Graph(ri: RegInfo, code: seq<seq<MachineInstr>>, succ: seq<set<nat>>) {
    ghost predicate Valid() {
      && ri.Valid()
      && |code| == |succ|
      && (forall b, s | 0 <= b < |succ| && s in succ[b] :: s < |succ|)
      && (forall b, k | 0 <= b < |code| && 0 <= k < |code[b]| :: code[b][k].Valid(ri))
    }
  }

  /** No two instructions share an identity. */
  ghost predicate DistinctIds(code: seq<seq<MachineInstr>>) {
    forall i, j, k, l | 0 <= i < |code| && 0 <= j < |code| && 0 <= k < |code[i]| && 0 <= l < |code[j]| ::
      code[i][k].id == code[j][l].id ==> i == j && k == l
  }

  /** For each block, the registers its stored live-in list stands for. */
  type State = seq<set<Reg>>

  ghost predicate InRange(g: Graph, x: State) {
    |x| == |g.succ| && forall b | 0 <= b < |x| :: x[b] <= g.ri.regs
  }

  ghost predicate Below(x: State, y: State) {
    |x| == |y| && forall b | 0 <= b < |x| :: x[b] <= y[b]
  }

  /** The registers live before instruction `k`, given those live after the last. */
  function LiveBefore(ri: RegInfo, code: seq<MachineInstr>, k: nat, out: set<Reg>): set<Reg>
    requires k <= |code|
    decreases |code| - k
  {
    if k == |code| then out else StepBackward(ri, LiveBefore(ri, code, k + 1, out), code[k])
  }

  ghost function LiveOut(g: Graph, x: State, b: nat): set<Reg>
    requires g.Valid() && |x| == |g.succ| && b < |x|
  {
    set s, r | s in g.succ[b] && r in x[s] :: r
  }

  ghost function LiveAt(g: Graph, x: State, b: nat, k: nat): set<Reg>
    requires g.Valid() && |x| == |g.succ| && b < |x| && k <= |g.code[b]|
  {
    LiveBefore(g.ri, g.code[b], k, LiveOut(g, x, b))
  }

  /** What a recomputation of block `b` makes its live-in list stand for. */
  ghost function Recomputed(g: Graph, x: State, b: nat): set<Reg>
    requires g.Valid() && |x| == |g.succ| && b < |x|
  {
    Close(g.ri, LiveAt(g, x, b, 0) - g.ri.reserved)
  }

  ghost predicate IsSolution(g: Graph, x: State)
    requires g.Valid()
  {
    InRange(g, x) && forall b | 0 <= b < |x| :: x[b] == Recomputed(g, x, b)
  }

  ghost predicate IsPreSolution(g: Graph, x: State)
    requires g.Valid()
  {
    InRange(g, x) && forall b | 0 <= b < |x| :: Recomputed(g, x, b) <= x[b]
  }

  ghost predicate IsLeastSolution(g: Graph, x: State)
    requires g.Valid()
  {
    IsSolution(g, x) && forall y | IsPreSolution(g, y) :: Below(x, y)
  }

  // ---- the equations are monotone and stay inside the register file

  lemma {:induction false} LiveBeforeMonotone(ri: RegInfo, code: seq<MachineInstr>, k: nat, o: set<Reg>, p: set<Reg>)
    requires k <= |code| && o <= p
    ensures LiveBefore(ri, code, k, o) <= LiveBefore(ri, code, k, p)
    decreases |code| - k
  {
    if k < |code| {
      LiveBeforeMonotone(ri, code, k + 1, o, p);
    }
  }

  lemma {:induction false} LiveBeforeInRange(ri: RegInfo, code: seq<MachineInstr>, k: nat, o: set<Reg>)
    requires ri.Valid() && k <= |code| && o <= ri.regs
    requires forall i | 0 <= i < |code| :: code[i].Valid(ri)
    ensures LiveBefore(ri, code, k, o) <= ri.regs
    decreases |code| - k
  {
    if k < |code| {
      LiveBeforeInRange(ri, code, k + 1, o);
    }
  }

  /** A live set always holds the sub-registers of its members. */
  lemma {:induction false} LiveBeforeClosed(ri: RegInfo, code: seq<MachineInstr>, k: nat, o: set<Reg>)
    requires ri.Valid() && k <= |code| && IsClosed(ri, o)
    requires forall i | 0 <= i < |code| :: code[i].Valid(ri)
    ensures IsClosed(ri, LiveBefore(ri, code, k, o))
    decreases |code| - k
  {
    if k < |code| {
      LiveBeforeClosed(ri, code, k + 1, o);
      StepBackwardClosed(ri, LiveBefore(ri, code, k + 1, o), code[k]);
    }
  }

  lemma RecomputedMonotone(g: Graph, x: State, y: State, b: nat)
    requires g.Valid() && |x| == |g.succ| && Below(x, y) && b < |x|
    ensures Recomputed(g, x, b) <= Recomputed(g, y, b)
  {
    LiveBeforeMonotone(g.ri, g.code[b], 0, LiveOut(g, x, b), LiveOut(g, y, b));
  }

  lemma RecomputedInRange(g: Graph, x: State, b: nat)
    requires g.Valid() && InRange(g, x) && b < |x|
    ensures LiveAt(g, x, b, 0) <= g.ri.regs
    ensures Recomputed(g, x, b) <= g.ri.regs
  {
    LiveBeforeInRange(g.ri, g.code[b], 0, LiveOut(g, x, b));
  }

  /** Whatever order blocks are visited in, there is one result to arrive at. */
  lemma LeastSolutionUnique(g: Graph, x: State, y: State)
    requires g.Valid() && IsLeastSolution(g, x) && IsLeastSolution(g, y)
    ensures x == y
  {
    assert Below(x, y) && Below(y, x);
    assert forall b | 0 <= b < |x| :: x[b] == y[b];
  }

  // ---- progress

  /** How far the state still can grow. */
  ghost function Room(regs: set<Reg>, x: State): nat {
    if |x| == 0 then 0 else |regs - x[0]| + Room(regs, x[1..])
  }

  lemma {:induction false} RoomShrinks(regs: set<Reg>, x: State, b: nat, s: set<Reg>)
    requires b < |x| && x[b] <= s <= regs
    ensures Room(regs, x[b := s]) <= Room(regs, x)
    ensures x[b] != s ==> Room(regs, x[b := s]) < Room(regs, x)
  {
    if b == 0 {
      assert x[b := s][1..] == x[1..];
      SubsetSmaller(regs - s, regs - x[0]);
      assert x[0] != s ==> regs - s < regs - x[0] by {
        if r :| r in s && r !in x[0] {
          assert r in regs - x[0] && r !in regs - s;
        }
      }
    } else {
      assert x[b := s][1..] == x[1..][b - 1 := s];
      RoomShrinks(regs, x[1..], b - 1, s);
    }
  }

  lemma {:induction false} SubsetSmaller(a: set<Reg>, b: set<Reg>)
    requires a <= b
    ensures |a| <= |b|
    ensures a != b ==> |a| < |b|
  {
    assert b == a + (b - a);
    if a != b {
      assert b - a != {};
    }
  }

  // ---- paths

  datatype Point = Point(block: nat, idx: nat)

  /** Execution can go from `p` to `q` without `r` being written. */
  ghost predicate Preserves(g: Graph, r: Reg, p: Point, q: Point) {
    && p.block < |g.code| && |g.code| == |g.succ|
    && if p.idx < |g.code[p.block]| then
         q == Point(p.block, p.idx + 1) && !Writes(g.ri, g.code[p.block][p.idx], r)
       else
         p.idx == |g.code[p.block]| && q.idx == 0 && q.block in g.succ[p.block]
  }

  ghost predicate Reads(g: Graph, r: Reg, p: Point) {
    && p.block < |g.code| && p.idx < |g.code[p.block]|
    && Uses(g.ri, g.code[p.block][p.idx], r)
  }

  ghost predicate ReachesRead(g: Graph, r: Reg, path: seq<Point>) {
    && |path| > 0
    && (forall i | 0 <= i < |path| - 1 :: Preserves(g, r, path[i], path[i + 1]))
    && Reads(g, r, path[|path| - 1])
  }

  /** Some path from before instruction `k` of block `b` reads `r` unwritten. */
  ghost predicate ReadLater(g: Graph, r: Reg, b: nat, k: nat) {
    exists path: seq<Point> :: ReachesRead(g, r, path) && path[0] == Point(b, k)
  }

  lemma ReadLaterStep(g: Graph, r: Reg, p: Point, q: Point)
    requires Preserves(g, r, p, q) && ReadLater(g, r, q.block, q.idx)
    ensures ReadLater(g, r, p.block, p.idx)
  {
    var path :| ReachesRead(g, r, path) && path[0] == q;
    var longer := [p] + path;
    assert forall i | 0 < i < |longer| - 1 :: longer[i] == path[i - 1] && longer[i + 1] == path[i];
    assert ReachesRead(g, r, longer) && longer[0] == p;
  }

  /** A part of a register is read later if the whole is. */
  lemma ReadLaterSub(g: Graph, r: Reg, s: Reg, b: nat, k: nat)
    requires g.Valid() && ReadLater(g, r, b, k) && r in g.ri.regs && s in g.ri.subs[r]
    ensures ReadLater(g, s, b, k)
  {
    var path :| ReachesRead(g, r, path) && path[0] == Point(b, k);
    forall i | 0 <= i < |path| - 1 ensures Preserves(g, s, path[i], path[i + 1]) {
      assert Preserves(g, r, path[i], path[i + 1]);
      var p: Point := path[i];
      if p.idx < |g.code[p.block]| && Writes(g.ri, g.code[p.block][p.idx], s) {
        WritesWhole(g.ri, g.code[p.block][p.idx], r, s);
      }
    }
    assert ReachesRead(g, s, path);
  }

  /** `r` is read inside the block from `k` on before being written. */
  ghost predicate ReadLocally(ri: RegInfo, code: seq<MachineInstr>, k: nat, r: Reg) {
    exists j | k <= j < |code| :: Uses(ri, code[j], r) && forall i | k <= i < j :: !Writes(ri, code[i], r)
  }

  ghost predicate Survives(ri: RegInfo, code: seq<MachineInstr>, k: nat, r: Reg) {
    forall i | k <= i < |code| :: !Writes(ri, code[i], r)
  }

  lemma {:induction false} LiveBeforeSplit(ri: RegInfo, code: seq<MachineInstr>, k: nat, out: set<Reg>, r: Reg)
    requires k <= |code|
    ensures r in LiveBefore(ri, code, k, out) <==> ReadLocally(ri, code, k, r) || (Survives(ri, code, k, r) && r in out)
    decreases |code| - k
  {
    if k < |code| {
      LiveBeforeSplit(ri, code, k + 1, out, r);
      KillIsWrites(ri, code[k], r);
      GenIsUses(ri, code[k], r);
      if Uses(ri, code[k], r) {
        assert ReadLocally(ri, code, k, r);
      } else if !Writes(ri, code[k], r) {
        if ReadLocally(ri, code, k + 1, r) {
          var j :| k + 1 <= j < |code| && Uses(ri, code[j], r) && forall i | k + 1 <= i < j :: !Writes(ri, code[i], r);
          assert forall i | k <= i < j :: !Writes(ri, code[i], r);
        }
        if ReadLocally(ri, code, k, r) {
          var j :| k <= j < |code| && Uses(ri, code[j], r) && forall i | k <= i < j :: !Writes(ri, code[i], r);
          assert k + 1 <= j;
        }
      }
    }
  }

  lemma {:induction false} ReadLocallyIsPath(g: Graph, b: nat, k: nat, r: Reg)
    requires g.Valid() && b < |g.code| && k <= |g.code[b]| && ReadLocally(g.ri, g.code[b], k, r)
    ensures ReadLater(g, r, b, k)
    decreases |g.code[b]| - k
  {
    var j :| k <= j < |g.code[b]| && Uses(g.ri, g.code[b][j], r) && forall i | k <= i < j ::
        !Writes(g.ri, g.code[b][i], r);
    if j == k {
      var path := [Point(b, k)];
      assert ReachesRead(g, r, path) && path[0] == Point(b, k);
    } else {
      assert ReadLocally(g.ri, g.code[b], k + 1, r);
      ReadLocallyIsPath(g, b, k + 1, r);
      ReadLaterStep(g, r, Point(b, k), Point(b, k + 1));
    }
  }

  lemma {:induction false} SurvivesIsPath(g: Graph, b: nat, k: nat, r: Reg, s: nat)
    requires g.Valid() && b < |g.code| && k <= |g.code[b]| && Survives(g.ri, g.code[b], k, r)
    requires s in g.succ[b] && ReadLater(g, r, s, 0)
    ensures ReadLater(g, r, b, k)
    decreases |g.code[b]| - k
  {
    if k == |g.code[b]| {
      ReadLaterStep(g, r, Point(b, k), Point(s, 0));
    } else {
      SurvivesIsPath(g, b, k + 1, r, s);
      ReadLaterStep(g, r, Point(b, k), Point(b, k + 1));
    }
  }

  /** The registers that some unreserved register read later covers. */
  ghost function PathState(g: Graph): State
    requires g.Valid()
  {
    seq(|g.succ|, b requires 0 <= b < |g.succ| => PathLiveIns(g, b))
  }

  ghost function PathLiveIns(g: Graph, b: nat): set<Reg>
    requires g.Valid()
  {
    set r | r in g.ri.regs && CoveredLater(g, r, b)
  }

  ghost predicate CoveredLater(g: Graph, r: Reg, b: nat) {
    exists s | s in g.ri.regs - g.ri.reserved && s in g.ri.subs && r in g.ri.subs[s] :: ReadLater(g, s, b, 0)
  }

  lemma PathStateIsPreSolution(g: Graph)
    requires g.Valid()
    ensures IsPreSolution(g, PathState(g))
  {
    hide ReadLater, ReadLocally, Survives, LiveBefore;
    var y := PathState(g);
    assert InRange(g, y);
    forall b, r | 0 <= b < |y| && r in Recomputed(g, y, b) ensures r in y[b] {
      RecomputedInRange(g, y, b);
      var s :| s in LiveAt(g, y, b, 0) - g.ri.reserved && r in g.ri.subs[s];
      LiveBeforeSplit(g.ri, g.code[b], 0, LiveOut(g, y, b), s);
      if ReadLocally(g.ri, g.code[b], 0, s) {
        ReadLocallyIsPath(g, b, 0, s);
      } else {
        var t :| t in g.succ[b] && s in y[t];
        var top :| top in g.ri.regs - g.ri.reserved && s in g.ri.subs[top] && ReadLater(g, top, t, 0);
        ReadLaterSub(g, top, s, t, 0);
        SurvivesIsPath(g, b, 0, s, t);
      }
      assert CoveredLater(g, r, b);
    }
  }

  /** Everything read later is live in every solution. */
  lemma {:induction false} PathIsLive(g: Graph, x: State, r: Reg, path: seq<Point>)
    requires g.Valid() && IsSolution(g, x) && r in g.ri.regs && r !in g.ri.reserved
    requires ReachesRead(g, r, path)
    ensures path[0].block < |x| && path[0].idx <= |g.code[path[0].block]|
    ensures r in LiveAt(g, x, path[0].block, path[0].idx)
    decreases |path|
  {
    var p := path[0];
    if p.block < |g.code| && p.idx < |g.code[p.block]| {
      KillIsWrites(g.ri, g.code[p.block][p.idx], r);
      GenIsUses(g.ri, g.code[p.block][p.idx], r);
    }
    if |path| > 1 {
      var q := path[1];
      assert Preserves(g, r, p, q);
      var rest := path[1..];
      forall i | 0 <= i < |rest| - 1 ensures Preserves(g, r, rest[i], rest[i + 1]) {
        assert rest[i] == path[i + 1] && rest[i + 1] == path[i + 2];
      }
      PathIsLive(g, x, r, rest);
      if p.idx == |g.code[p.block]| {
        assert r in g.ri.subs[r];
        assert r in x[q.block];
      }
    }
  }

  /** Path exactness. An unreserved register is live before an instruction
      exactly when some path from there reads it before writing it. */
  lemma LiveIffReadLater(g: Graph, x: State, b: nat, k: nat, r: Reg)
    requires g.Valid() && IsLeastSolution(g, x) && b < |x| && k <= |g.code[b]|
    requires r in g.ri.regs && r !in g.ri.reserved
    ensures r in LiveAt(g, x, b, k) <==> ReadLater(g, r, b, k)
  {
    if ReadLater(g, r, b, k) {
      var path :| ReachesRead(g, r, path) && path[0] == Point(b, k);
      PathIsLive(g, x, r, path);
    }
    if r in LiveAt(g, x, b, k) {
      LiveBeforeSplit(g.ri, g.code[b], k, LiveOut(g, x, b), r);
      if ReadLocally(g.ri, g.code[b], k, r) {
        ReadLocallyIsPath(g, b, k, r);
      } else {
        var s := ReadInSuccessor(g, x, b, r);
        SurvivesIsPath(g, b, k, r, s);
      }
    }
  }

  lemma ReadInSuccessor(g: Graph, x: State, b: nat, r: Reg) returns (s: nat)
    requires g.Valid() && IsLeastSolution(g, x) && b < |x| && r in LiveOut(g, x, b)
    ensures s in g.succ[b] && CoveredLater(g, r, s) && ReadLater(g, r, s, 0)
  {
    PathStateIsPreSolution(g);
    s :| s in g.succ[b] && r in x[s];
    assert Below(x, PathState(g));
    assert r in PathState(g)[s];
    var top :| top in g.ri.regs - g.ri.reserved && r in g.ri.subs[top] && ReadLater(g, top, s, 0);
    ReadLaterSub(g, top, r, s, 0);
  }

  /** `r` is read in the block from `k` on, or survives it and is a part of an
      unreserved register read later in a successor. */
  ghost predicate CarriedLater(g: Graph, r: Reg, b: nat, k: nat)
    requires b < |g.code| == |g.succ|
  {
    || ReadLocally(g.ri, g.code[b], k, r)
    || (Survives(g.ri, g.code[b], k, r) && exists s | s in g.succ[b] :: CoveredLater(g, r, s))
  }

  /** The same for every register. One that is reserved is carried over a block
      boundary only as a part of an unreserved register read later. */
  lemma LiveIffCarried(g: Graph, x: State, b: nat, k: nat, r: Reg)
    requires g.Valid() && IsLeastSolution(g, x) && b < |x| && k <= |g.code[b]| && r in g.ri.regs
    ensures r in LiveAt(g, x, b, k) <==> CarriedLater(g, r, b, k)
  {
    LiveBeforeSplit(g.ri, g.code[b], k, LiveOut(g, x, b), r);
    if r in LiveOut(g, x, b) {
      var s := ReadInSuccessor(g, x, b, r);
    }
    if s :| s in g.succ[b] && CoveredLater(g, r, s) {
      CoveredIsLiveIn(g, x, r, s);
    }
  }

  /** A reserved register of its own is read in the second block, and not live in the
      first. */
  lemma ReservedIsDropped(x: State)
    requires IsLeastSolution(ReservedRead(), x)
    ensures ReadLater(ReservedRead(), 0, 0, 0) && 0 !in LiveAt(ReservedRead(), x, 0, 0)
  {
    var g := ReservedRead();
    assert 0 in g.ri.subs[0];
    var path := [Point(0, 0), Point(1, 0)];
    assert Preserves(g, 0, path[0], path[1]);
    assert ReachesRead(g, 0, path) && path[0] == Point(0, 0);
    LiveIffCarried(g, x, 0, 0, 0);
  }

  ghost function ReservedRead(): (g: Graph)
    ensures g.Valid()
  {
    Graph(RegInfo({0}, map[0 := {0}], map[0 := {0}], {0}), [[], [MachineInstr(0, {}, {}, {0})]], [{1}, {}])
  }

  lemma CoveredIsLiveIn(g: Graph, x: State, r: Reg, s: nat)
    requires g.Valid() && IsSolution(g, x) && s < |x| && CoveredLater(g, r, s)
    ensures r in x[s]
  {
    var top :| top in g.ri.regs - g.ri.reserved && top in g.ri.subs && r in g.ri.subs[top] && ReadLater(g, top, s, 0);
    var path :| ReachesRead(g, top, path) && path[0] == Point(s, 0);
    PathIsLive(g, x, top, path);
    assert top in LiveAt(g, x, s, 0) - g.ri.reserved;
    assert r in Recomputed(g, x, s);
  }
}
