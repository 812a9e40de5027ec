/** Redirecting the uses of a register that a lowered write has replaced. */
module RegUses {
  import opened Wrappers
  import opened RegLowering
  import opened RegBlocks

  /** A read of a physical register as it stands in the code, with the register that the
      use for each cell names, redirected or not. */
  datatype Use = Use(out: VReg, src: PhysReg, from: Cells)

  ghost predicate Based(u: Use, regs: set<VReg>) {
    Accessible(u.src, u.from.Keys) && forall c | u.src.Touches(c) :: u.from[c] in regs
  }

  ghost function NextAfter(us: seq<Use>, next: VReg): (n: VReg)
    ensures n >= next
  {
    if us == [] then next else NextAfter(us[..|us| - 1], next) + Merged(us[|us| - 1].src)
  }

  ghost function UsesCode(us: seq<Use>, next: VReg, regs: set<VReg>): seq<Instr>
    requires forall i | 0 <= i < |us| :: Based(us[i], regs)
  {
    if us == [] then []
    else
      var n := |us| - 1;
      assert Based(us[n], regs);
      UsesCode(us[..n], next, regs) + ReadCode(us[n].out, us[n].src, us[n].from, NextAfter(us[..n], next))
  }

  ghost function Outs(us: seq<Use>): set<VReg> {
    set i | 0 <= i < |us| :: us[i].out
  }

  /** The uses name registers of `regs`, and define others, each once. */
  ghost predicate UsesProper(us: seq<Use>, next: VReg, regs: set<VReg>) {
    && (forall i | 0 <= i < |us| :: Based(us[i], regs) && us[i].out < next && us[i].out !in regs)
    && (forall i, j | 0 <= i < j < |us| :: us[i].out != us[j].out)
    && (forall r | r in regs :: !(next <= r < NextAfter(us, next)))
  }

  /** What a read finds in the registers `from`. */
  ghost function Seen(e: Env, from: Cells, src: PhysReg): Value {
    seq<nat>(src.Size(), k requires 0 <= k < src.Size() => HalfAt(e, from, src.Start() + k))
  }

  lemma SeenIs(e: Env, u: Use, next: VReg, regs: set<VReg>, bound: VReg)
    requires Based(u, regs) && forall r | r in regs :: r < bound && |Get(e, r)| == 2
    ensures Get(Run(e, ReadCode(u.out, u.src, u.from, next)), u.out) == Seen(e, u.from, u.src)
  {
    hide Run, ReadCode, HalfAt, Get;
    assert Held(e, u.from, u.src, bound);
    SizePositive(u.src);
    ReadMeaning(e, u.out, u.src, u.from, next, bound, 0);
    var v := ReadResult(e, u.out, u.src, u.from, next);
    forall k | 0 <= k < u.src.Size() ensures v[k] == HalfAt(e, u.from, u.src.Start() + k) {
      ReadMeaning(e, u.out, u.src, u.from, next, bound, k);
    }
  }

  lemma SeenSame(e: Env, e': Env, u: Use, regs: set<VReg>)
    requires Based(u, regs) && forall r | r in regs :: Get(e', r) == Get(e, r)
    ensures Seen(e', u.from, u.src) == Seen(e, u.from, u.src)
  {
    var s, s' := Seen(e, u.from, u.src), Seen(e', u.from, u.src);
    forall k | 0 <= k < u.src.Size() ensures s'[k] == s[k] {
      TouchedHalf(u.src, k);
    }
  }

  /** One read, `e1` having the registers it names as `e` has them. */
  lemma UseRun(e: Env, e1: Env, u: Use, next: VReg, regs: set<VReg>, bound: VReg)
    requires Based(u, regs) && forall r | r in regs :: r < bound && |Get(e, r)| == 2 && Get(e1, r) == Get(e, r)
    ensures var e2 := Run(e1, ReadCode(u.out, u.src, u.from, next));
            && Get(e2, u.out) == Seen(e, u.from, u.src)
            && (forall r: VReg | r != u.out && !(next <= r < next + Merged(u.src)) :: Get(e2, r) == Get(e1, r))
  {
    hide Run, ReadCode, Get, Seen, Merged;
    SeenIs(e1, u, next, regs, bound);
    SeenSame(e, e1, u, regs);
    forall r: VReg | r != u.out && !(next <= r < next + Merged(u.src))
      ensures Get(Run(e1, ReadCode(u.out, u.src, u.from, next)), r) == Get(e1, r)
    {
      ReadKeeps(e1, u.out, u.src, u.from, next, r);
    }
  }

  lemma OutsStep(us: seq<Use>)
    requires us != []
    ensures Outs(us) == Outs(us[..|us| - 1]) + {us[|us| - 1].out}
    ensures forall i | 0 <= i < |us| - 1 :: us[..|us| - 1][i] == us[i] && us[i].out in Outs(us[..|us| - 1])
  {
    var n := |us| - 1;
    assert forall i | 0 <= i < n :: us[..n][i] == us[i];
    assert us[n].out in Outs(us);
  }

  /** Reads put into their outputs what they find, and change nothing else. */
  lemma {:induction false} UsesRun(us: seq<Use>, e: Env, next: VReg, regs: set<VReg>, bound: VReg)
    requires UsesProper(us, next, regs) && forall r | r in regs :: r < bound && |Get(e, r)| == 2
    ensures var e' := Run(e, UsesCode(us, next, regs));
            && (forall r: VReg | r !in Outs(us) && !(next <= r < NextAfter(us, next)) :: Get(e', r) == Get(e, r))
            && (forall i | 0 <= i < |us| :: Get(e', us[i].out) == Seen(e, us[i].from, us[i].src))
    decreases |us|
  {
    hide Run, ReadCode, Get, Seen, Merged, Outs;
    if us == [] {
      RunNothing(e);
    } else {
      var n := |us| - 1;
      var u, next' := us[n], NextAfter(us[..n], next);
      OutsStep(us);
      OutsOf(us[..n], next, regs);
      UsesRun(us[..n], e, next, regs, bound);
      var e1 := Run(e, UsesCode(us[..n], next, regs));
      RunAppend(e, UsesCode(us[..n], next, regs), ReadCode(u.out, u.src, u.from, next'));
      UseRun(e, e1, u, next', regs, bound);
    }
  }

  lemma OutsOf(us: seq<Use>, next: VReg, regs: set<VReg>)
    requires UsesProper(us, next, regs)
    ensures forall r | r in regs :: r !in Outs(us)
  {
  }

  // ---- a block with one write

  /** The code of a block that writes `dest`: reads before, the write, and reads that
      stand after it. `acc` holds the cells before the write. `own` is the register the
      write of a half names for the cell around it. */
  datatype Block = Block(before: seq<Use>, input: VReg, dest: PhysReg, own: VReg, after: seq<Use>, acc: Cells,
                         first: VReg)
  {
    ghost function Next(): (n: VReg)
      ensures n >= first
    {
      NextAfter(before, first)
    }

    /** The registers that hold the cells of the destination from the write on. */
    ghost function Fresh(): Cells {
      WriteMap(input, dest, Next())
    }

    /** Those any use may name: the old ones and the new ones. */
    ghost function Regs(): set<VReg> {
      acc.Values + Fresh().Values
    }

    /** The register that holds a cell after the write. */
    ghost function Now(): Cells {
      acc + Fresh()
    }

    /** Outputs are defined once, and apart from the registers that hold cells. A register
        has one size. */
    ghost predicate Proper() {
      && Accessible(dest, acc.Keys)
      && (forall r | r in acc.Values :: r < first) && input < first && (input in acc.Values ==> dest.Size() == 2)
      && UsesProper(before, first, Regs()) && UsesProper(after, Next() + Made(dest), Regs())
      && (forall u | u in before + after :: Accessible(u.src, acc.Keys) && u.out < first)
      && (forall u | u in before :: u.out != input && forall v | v in after :: u.out != v.out)
      && (dest.Half? ==> own in Regs())
    }

    ghost function OwnCode(): seq<Instr>
      requires Accessible(dest, acc.Keys)
    {
      WriteCode(input, dest, if dest.Half? then acc[dest.cell := own] else acc, Next())
    }

    ghost function Code(): seq<Instr>
      requires Proper()
    {
      UsesCode(before, first, Regs()) + OwnCode() + UsesCode(after, Next() + Made(dest), Regs())
    }

    /** Values have the sizes of their registers; new registers have some value too. */
    ghost predicate Fits(env: Env) {
      (forall r | r in Regs() :: |Get(env, r)| == 2) && |Get(env, input)| == dest.Size()
    }

    ghost function Meant(env: Env, src: PhysReg): Value {
      seq<nat>(src.Size(), k requires 0 <= k < src.Size() => Written(env, input, dest, acc, src.Start() + k))
    }

    /** Reads before the write return what was there, reads after it and all later code find
        what was written, and what was there before elsewhere. */
    ghost predicate Right(env: Env)
      requires Proper()
    {
      var e := Run(env, Code());
      && (forall u | u in before :: Get(e, u.out) == Seen(env, acc, u.src))
      && (forall u | u in after :: Get(e, u.out) == Meant(env, u.src))
      && (forall p: nat | p / 2 in acc :: HalfAt(e, Now(), p) == Written(env, input, dest, acc, p))
    }

    /** Two registers have the same half `k` after the write: they are one, or the old and
        the new one of a cell whose other half is written. */
    ghost predicate Agree(r: VReg, s: VReg, k: nat)
      requires Accessible(dest, acc.Keys)
    {
      r == s || (dest.Half? && DestTouched() && k != Index() && r in Pair() && s in Pair())
    }

    ghost predicate DestTouched() {
      dest.Half? && dest.cell in acc
    }

    ghost function Index(): nat
      requires dest.Half?
    {
      if dest.high then 1 else 0
    }

    ghost function Pair(): set<VReg>
      requires DestTouched()
    {
      {acc[dest.cell], Next()}
    }

    ghost predicate OwnOk() {
      DestTouched() ==> own == acc[dest.cell]
    }

    ghost predicate BeforeOk(u: Use, k: nat) {
      var c := (u.src.Start() + k) / 2;
      c in u.from && c in acc && u.from[c] == acc[c]
    }

    ghost predicate AfterOk(u: Use, k: nat)
      requires Accessible(dest, acc.Keys)
    {
      var p := u.src.Start() + k;
      p / 2 in u.from && p / 2 in Now() && Agree(u.from[p / 2], Now()[p / 2], p % 2)
    }

    /** Every use names a register that has the half it is for at that point: the old ones
        before the write and in it, the new ones after it. */
    ghost predicate UsesOk()
      requires Accessible(dest, acc.Keys)
    {
      && OwnOk()
      && (forall u, k: nat | u in before && k < u.src.Size() :: BeforeOk(u, k))
      && (forall u, k: nat | u in after && k < u.src.Size() :: AfterOk(u, k))
    }

    /** What a register has after the write. */
    ghost function Holds(env: Env, r: VReg): Value {
      if dest.Wide? && dest.channels > 1 && Next() <= r < Next() + dest.channels then
        Extract(Get(env, input), Channel(r - Next()))
      else if dest.Half? && r == Next() then
        var v, x := Get(env, own), Get(env, input);
        if |v| == 2 && |x| == 1 then v[Index() := x[0]] else v
      else Get(env, r)
    }

    ghost function HoldsAt(env: Env, from: Cells, p: nat): nat {
      if p / 2 in from && |Holds(env, from[p / 2])| == 2 then Holds(env, from[p / 2])[p % 2] else 0
    }
  }

  // ---- running it

  /** The write gives the new registers their values. */
  lemma OwnRun(b: Block, e: Env, r: VReg)
    requires b.Proper() && b.Fits(e) && (r in b.Regs() || r < b.first)
    ensures Get(Run(e, b.OwnCode()), r) == b.Holds(e, r)
  {
    hide Extract, Run, ChannelCopies;
    var next := b.Next();
    var acc := if b.dest.Half? then b.acc[b.dest.cell := b.own] else b.acc;
    if r < next {
      OlderKept(e, b.input, b.dest, acc, next, r);
    } else {
      match b.dest {
        case Wide(f, n) =>
          assert n > 1 && r - next < n;
          CopiedChannel(e, b.input, n, next, r - next);
        case Half(c, high) =>
          RunOne(e, InsertSubreg(next, b.own, b.input, high));
      }
    }
  }

  lemma HoldsSame(b: Block, e: Env, e': Env, r: VReg)
    requires b.Proper() && r in b.Regs() && Get(e', b.input) == Get(e, b.input)
    requires forall s | s in b.Regs() :: Get(e', s) == Get(e, s)
    ensures b.Holds(e', r) == b.Holds(e, r)
  {
  }

  lemma RegsBelow(b: Block)
    requires b.Proper()
    ensures forall r | r in b.Regs() :: r < b.Next() + Made(b.dest)
    ensures forall r | r in b.Regs() && r < b.Next() :: r in b.acc.Values || r == b.input
    ensures forall c | c in b.acc :: c in b.Now() && b.Now()[c] in b.Regs() && b.acc[c] in b.Regs()
    ensures b.dest.Half? ==> b.dest.cell in b.acc
  {
    assert b.dest.Half? ==> b.dest.Touches(b.dest.cell);
    forall r | r in b.Regs()
      ensures r < b.Next() + Made(b.dest) && (r < b.Next() ==> r in b.acc.Values || r == b.input) {
      if r !in b.acc.Values {
        var c :| c in b.Fresh() && b.Fresh()[c] == r;
        assert b.dest.Wide? && b.dest.channels > 1 ==> r == b.Next() + (c - b.dest.first);
      }
    }
    WrittenTouched(b.input, b.dest, b.Next());
    forall c | c in b.acc ensures c in b.Now() && b.Now()[c] in b.Regs() && b.acc[c] in b.Regs() {
      if c in b.Fresh() {
        assert b.Fresh()[c] in b.Fresh().Values;
      }
    }
  }

  /** The environment after the reads before the write, and after the write. */
  lemma FirstParts(b: Block, env: Env, e1: Env, e2: Env)
    requires b.Proper() && b.Fits(env)
    requires e1 == Run(env, UsesCode(b.before, b.first, b.Regs())) && e2 == Run(e1, b.OwnCode())
    ensures forall r | r in b.Regs() :: Get(e2, r) == b.Holds(env, r)
    ensures forall u | u in b.before :: Get(e2, u.out) == Seen(env, u.from, u.src)
    ensures forall r | r in b.Regs() :: |Get(e2, r)| == 2
  {
    hide Run, UsesCode, Get, Block.OwnCode, Seen, Block.Holds, Block.Fresh, UsesProper;
    RegsBelow(b);
    UsesRun(b.before, env, b.first, b.Regs(), b.Next() + Made(b.dest));
    OutsApart(b);
    assert forall r | r in b.Regs() :: Get(e1, r) == Get(env, r);
    assert Get(e1, b.input) == Get(env, b.input);
    assert b.Fits(e1);
    forall r | r in b.Regs() ensures Get(e2, r) == b.Holds(env, r) && |Get(e2, r)| == 2 {
      OwnRun(b, e1, r);
      HoldsSame(b, env, e1, r);
      HoldsSize(b, env, r);
    }
    forall u | u in b.before ensures Get(e2, u.out) == Seen(env, u.from, u.src) {
      var i :| 0 <= i < |b.before| && b.before[i] == u;
      assert Get(e1, b.before[i].out) == Seen(env, u.from, u.src);
      OwnRun(b, e1, u.out);
      HoldsOld(b, e1, u.out);
    }
  }

  lemma OutsApart(b: Block)
    requires b.Proper()
    ensures forall r | r in b.Regs() + {b.input} :: r !in Outs(b.before) && !(b.first <= r < b.Next())
    ensures forall u | u in b.before :: u.out < b.first && u.out !in b.Regs() && u.out !in Outs(b.after)
    ensures forall r | r in b.Regs() :: r !in Outs(b.after) && !(b.Next() + Made(b.dest) <= r)
  {
    RegsBelow(b);
    assert forall i | 0 <= i < |b.before| :: b.before[i] in b.before && b.before[i] in b.before + b.after;
    assert forall i | 0 <= i < |b.after| :: b.after[i] in b.after;
    forall u | u in b.before ensures u.out < b.first && u.out !in b.Regs() {
      var i :| 0 <= i < |b.before| && b.before[i] == u;
    }
  }

  lemma HoldsSize(b: Block, env: Env, r: VReg)
    requires b.Proper() && b.Fits(env) && r in b.Regs()
    ensures |b.Holds(env, r)| == 2
  {
  }

  lemma HoldsOld(b: Block, e: Env, r: VReg)
    requires b.Proper() && r < b.first
    ensures b.Holds(e, r) == Get(e, r)
  {
  }

  /** The output of a read after the write has what the registers its uses name then have. */
  ghost predicate FindsNew(b: Block, env: Env, v: Value, u: Use) {
    |v| == u.src.Size() && forall k: nat | k < u.src.Size() :: v[k] == b.HoldsAt(env, u.from, u.src.Start() + k)
  }

  /** What a block leaves: the outputs have what their uses name, and the registers that
      hold cells what the write gave them. */
  lemma BlockRun(b: Block, env: Env)
    requires b.Proper() && b.Fits(env)
    ensures var e := Run(env, b.Code());
            && (forall u | u in b.before :: Get(e, u.out) == Seen(env, u.from, u.src))
            && (forall u | u in b.after :: FindsNew(b, env, Get(e, u.out), u))
            && (forall r | r in b.Regs() :: Get(e, r) == b.Holds(env, r))
  {
    hide Run, UsesCode, Get, Block.OwnCode, Seen, Block.Holds, Block.Fresh, HalfAt, Block.HoldsAt, Block.Regs, Outs,
         Based, NextAfter, FindsNew;
    var e1 := Run(env, UsesCode(b.before, b.first, b.Regs()));
    var e2 := Run(e1, b.OwnCode());
    var e := Run(env, b.Code());
    RegsBelow(b);
    OutsApart(b);
    FirstParts(b, env, e1, e2);
    RunAppend(env, UsesCode(b.before, b.first, b.Regs()) + b.OwnCode(),
              UsesCode(b.after, b.Next() + Made(b.dest), b.Regs()));
    RunAppend(env, UsesCode(b.before, b.first, b.Regs()), b.OwnCode());
    UsesRun(b.after, e2, b.Next() + Made(b.dest), b.Regs(), b.Next() + Made(b.dest));
    forall u | u in b.before ensures Get(e, u.out) == Seen(env, u.from, u.src) {
      assert u.out < b.Next() + Made(b.dest) && u.out !in Outs(b.after);
    }
    forall r | r in b.Regs() ensures Get(e, r) == b.Holds(env, r) {
      assert r !in Outs(b.after) && r < b.Next() + Made(b.dest) && Get(e2, r) == b.Holds(env, r);
    }
    forall u | u in b.after ensures FindsNew(b, env, Get(e, u.out), u) {
      var i :| 0 <= i < |b.after| && b.after[i] == u;
      assert Get(e, b.after[i].out) == Seen(e2, u.from, u.src);
      SeenHolds(b, env, e2, u);
    }
  }

  lemma SeenHolds(b: Block, env: Env, e2: Env, u: Use)
    requires Based(u, b.Regs()) && forall r | r in b.Regs() :: Get(e2, r) == b.Holds(env, r)
    ensures FindsNew(b, env, Seen(e2, u.from, u.src), u)
  {
    hide Block.Holds, Block.Regs;
    forall k: nat | k < u.src.Size() ensures Seen(e2, u.from, u.src)[k] == b.HoldsAt(env, u.from, u.src.Start() + k) {
      TouchedHalf(u.src, k);
    }
  }

  // ---- when it is right

  ghost predicate OldHalf(b: Block, env: Env, u: Use, k: nat) {
    HalfAt(env, u.from, u.src.Start() + k) == HalfAt(env, b.acc, u.src.Start() + k)
  }

  ghost predicate NewHalf(b: Block, env: Env, u: Use, k: nat) {
    b.HoldsAt(env, u.from, u.src.Start() + k) == Written(env, b.input, b.dest, b.acc, u.src.Start() + k)
  }

  ghost predicate SeesOld(b: Block, env: Env, u: Use) {
    forall k: nat | k < u.src.Size() :: OldHalf(b, env, u, k)
  }

  ghost predicate SeesNew(b: Block, env: Env, u: Use) {
    forall k: nat | k < u.src.Size() :: NewHalf(b, env, u, k)
  }

  ghost predicate KeepsCells(b: Block, env: Env) {
    forall p: nat | p / 2 in b.acc :: b.HoldsAt(env, b.Now(), p) == Written(env, b.input, b.dest, b.acc, p)
  }

  lemma SeenIff(b: Block, env: Env, u: Use)
    ensures Seen(env, u.from, u.src) == Seen(env, b.acc, u.src) <==> SeesOld(b, env, u)
  {
    var v, w := Seen(env, u.from, u.src), Seen(env, b.acc, u.src);
    if v == w {
      forall k: nat | k < u.src.Size() ensures OldHalf(b, env, u, k) {
        assert v[k] == w[k];
      }
    }
    if SeesOld(b, env, u) {
      forall k: nat | k < u.src.Size() ensures v[k] == w[k] {
        assert OldHalf(b, env, u, k);
      }
    }
  }

  lemma MeantIff(b: Block, env: Env, v: Value, u: Use)
    requires FindsNew(b, env, v, u)
    ensures v == b.Meant(env, u.src) <==> SeesNew(b, env, u)
  {
    hide Written, Block.HoldsAt;
    var w := b.Meant(env, u.src);
    if v == w {
      forall k: nat | k < u.src.Size() ensures NewHalf(b, env, u, k) {
        assert v[k] == w[k];
      }
    }
    if SeesNew(b, env, u) {
      forall k: nat | k < u.src.Size() ensures v[k] == w[k] {
        assert NewHalf(b, env, u, k);
      }
    }
  }

  lemma RightIff(b: Block, env: Env)
    requires b.Proper() && b.Fits(env)
    ensures b.Right(env) <==>
              (forall u | u in b.before :: SeesOld(b, env, u)) && (forall u | u in b.after :: SeesNew(b, env, u)) &&
              KeepsCells(b, env)
  {
    hide Run, Get, Block.Code, Seen, Block.Holds, Block.Proper, Block.Meant, SeesOld, SeesNew, FindsNew, Written;
    var e := Run(env, b.Code());
    BlockRun(b, env);
    RegsBelow(b);
    forall u | u in b.before ensures Get(e, u.out) == Seen(env, b.acc, u.src) <==> SeesOld(b, env, u) {
      SeenIff(b, env, u);
    }
    forall u | u in b.after ensures Get(e, u.out) == b.Meant(env, u.src) <==> SeesNew(b, env, u) {
      MeantIff(b, env, Get(e, u.out), u);
    }
    forall p: nat | p / 2 in b.acc ensures HalfAt(e, b.Now(), p) == b.HoldsAt(env, b.Now(), p) {
      assert b.Now()[p / 2] in b.Regs();
    }
  }

  lemma BesideKept(b: Block, env: Env, p: nat)
    requires b.Proper() && b.Fits(env) && p / 2 in b.acc && !b.dest.Touches(p / 2)
    ensures p / 2 in b.Now() && |b.Holds(env, b.Now()[p / 2])| == 2
    ensures b.Holds(env, b.Now()[p / 2])[p % 2] == Written(env, b.input, b.dest, b.acc, p)
  {
    WrittenTouched(b.input, b.dest, b.Next());
    assert b.acc[p / 2] in b.acc.Values && b.acc[p / 2] in b.Regs();
    HoldsOld(b, env, b.acc[p / 2]);
  }

  lemma KeptWide(b: Block, env: Env, p: nat)
    requires b.Proper() && b.Fits(env) && b.dest.Wide? && b.dest.Touches(p / 2)
    ensures p / 2 in b.Now() && |b.Holds(env, b.Now()[p / 2])| == 2
    ensures b.Holds(env, b.Now()[p / 2])[p % 2] == Written(env, b.input, b.dest, b.acc, p)
  {
    hide UsesProper, Extract;
    var f, n, c := b.dest.first, b.dest.channels, p / 2;
    if n > 1 {
      assert c in b.Fresh() && b.Fresh()[c] == b.Next() + (c - f);
      assert b.Now()[c] == b.Next() + (c - f);
      assert b.Holds(env, b.Now()[c]) == Extract(Get(env, b.input), Channel(c - f));
      HalfOfChannel(Get(env, b.input), p - 2 * f);
      assert (p - 2 * f) / 2 == c - f && (p - 2 * f) % 2 == p % 2;
    }
  }

  lemma KeptHalf(b: Block, env: Env, p: nat)
    requires b.Proper() && b.Fits(env) && b.OwnOk() && b.dest.Half? && p / 2 == b.dest.cell
    ensures p / 2 in b.Now() && |b.Holds(env, b.Now()[p / 2])| == 2
    ensures b.Holds(env, b.Now()[p / 2])[p % 2] == Written(env, b.input, b.dest, b.acc, p)
  {
    assert b.dest.Touches(b.dest.cell);
    assert b.acc[b.dest.cell] in b.acc.Values;
  }

  /** With its own use right, the write is right for all later code. */
  lemma CellsKept(b: Block, env: Env, p: nat)
    requires b.Proper() && b.Fits(env) && b.OwnOk() && p / 2 in b.acc
    ensures p / 2 in b.Now() && |b.Holds(env, b.Now()[p / 2])| == 2
    ensures b.Holds(env, b.Now()[p / 2])[p % 2] == Written(env, b.input, b.dest, b.acc, p)
  {
    hide Block.Holds, Written, Block.Proper, Block.Now;
    if !b.dest.Touches(p / 2) {
      BesideKept(b, env, p);
    } else if b.dest.Wide? {
      KeptWide(b, env, p);
    } else {
      KeptHalf(b, env, p);
    }
  }

  lemma AgreeHolds(b: Block, env: Env, r: VReg, s: VReg, k: nat)
    requires b.Proper() && b.Fits(env) && b.OwnOk() && r in b.Regs() && s in b.Regs() && k < 2 && b.Agree(r, s, k)
    ensures |b.Holds(env, r)| == 2 == |b.Holds(env, s)| && b.Holds(env, r)[k] == b.Holds(env, s)[k]
  {
    HoldsSize(b, env, r);
    HoldsSize(b, env, s);
    if r != s {
      assert b.acc[b.dest.cell] in b.acc.Values;
    }
  }

  /** Right uses make the block right, whatever the registers have. */
  lemma UsesOkIsRight(b: Block, env: Env)
    requires b.Proper() && b.Fits(env) && b.UsesOk()
    ensures b.Right(env)
  {
    assert Accessible(b.dest, b.acc.Keys);
    hide Block.Right, Block.Proper, Block.Holds, Block.Fits, Block.Agree, Block.OwnOk, Block.Regs, Block.Now, Get;
    RegsBelow(b);
    forall u | u in b.before ensures SeesOld(b, env, u) {
      forall k: nat | k < u.src.Size() ensures OldHalf(b, env, u, k) {
        assert b.BeforeOk(u, k);
      }
    }
    forall u | u in b.after ensures SeesNew(b, env, u) {
      forall k: nat | k < u.src.Size() ensures NewHalf(b, env, u, k) {
        assert b.AfterOk(u, k);
        AfterIsNew(b, env, u, k);
      }
    }
    forall p: nat | p / 2 in b.acc ensures b.HoldsAt(env, b.Now(), p) == Written(env, b.input, b.dest, b.acc, p) {
      CellsKept(b, env, p);
    }
    RightIff(b, env);
  }

  lemma UseCell(b: Block, u: Use, k: nat)
    requires b.Proper() && u in b.before + b.after && k < u.src.Size()
    ensures var c := (u.src.Start() + k) / 2; c in u.from && u.from[c] in b.Regs() && c in b.acc
  {
    TouchedHalf(u.src, k);
    if u in b.before {
      var i :| 0 <= i < |b.before| && b.before[i] == u;
    } else {
      var i :| 0 <= i < |b.after| && b.after[i] == u;
    }
  }

  lemma AfterIsNew(b: Block, env: Env, u: Use, k: nat)
    requires b.Proper() && b.Fits(env) && b.OwnOk() && u in b.after && k < u.src.Size() && b.AfterOk(u, k)
    ensures b.HoldsAt(env, u.from, u.src.Start() + k) == Written(env, b.input, b.dest, b.acc, u.src.Start() + k)
  {
    hide Block.Proper, Block.Holds, Block.Fits, Block.Agree, Block.OwnOk, Block.Regs, Block.Now, Get, Written;
    var p := u.src.Start() + k;
    RegsBelow(b);
    UseCell(b, u, k);
    AgreeHolds(b, env, u.from[p / 2], b.Now()[p / 2], p % 2);
    CellsKept(b, env, p);
  }

  // ---- when it is wrong

  /** The registers have nothing in common. */
  ghost predicate Marked(b: Block, env: Env) {
    forall r, s, k: nat, l: nat
      | r in b.Regs() + {b.input} && s in b.Regs() + {b.input} && k < |Get(env, r)| && l < |Get(env, s)| ::
      Get(env, r)[k] == Get(env, s)[l] ==> r == s && k == l
  }

  lemma MarkedApart(b: Block, env: Env, r: VReg, s: VReg, k: nat, l: nat)
    requires Marked(b, env) && r in b.Regs() + {b.input} && s in b.Regs() + {b.input}
    requires k < |Get(env, r)| && l < |Get(env, s)| && Get(env, r)[k] == Get(env, s)[l]
    ensures r == s && k == l
  {
  }

  lemma DistinctHolds(b: Block, env: Env, r: VReg, s: VReg, k: nat)
    requires b.Proper() && b.Fits(env) && b.OwnOk() && r in b.Regs() && s in b.Regs() && k < 2 && Marked(b, env)
    requires |b.Holds(env, r)| == 2 == |b.Holds(env, s)| && b.Holds(env, r)[k] == b.Holds(env, s)[k]
    ensures b.Agree(r, s, k)
  {
    hide Marked, UsesProper;
    RegsBelow(b);
    var x, y := OriginOf(b, env, r, k);
    var z, w := OriginOf(b, env, s, k);
    MarkedApart(b, env, x, z, y, w);
  }

  /** Where half `k` of a register after the write comes from. */
  lemma OriginOf(b: Block, env: Env, r: VReg, k: nat) returns (x: VReg, l: nat)
    requires b.Proper() && b.Fits(env) && b.OwnOk() && r in b.Regs() && k < 2
    ensures x in b.Regs() + {b.input} && l < |Get(env, x)|
    ensures |b.Holds(env, r)| == 2 && b.Holds(env, r)[k] == Get(env, x)[l]
    ensures if b.dest.Wide? && b.dest.channels > 1 && r >= b.Next() then x == b.input && l == 2 * (r - b.Next()) + k
            else if b.dest.Half? && r == b.Next() then
              if k == b.Index() then x == b.input && l == 0 else x == b.acc[b.dest.cell] && l == k
            else x == r && l == k
  {
    hide UsesProper, Accessible;
    RegsBelow(b);
    HoldsSize(b, env, r);
    if b.dest.Wide? && b.dest.channels > 1 && r >= b.Next() {
      x, l := b.input, 2 * (r - b.Next()) + k;
    } else if b.dest.Half? && r == b.Next() {
      x, l := if k == b.Index() then b.input else b.acc[b.dest.cell], if k == b.Index() then 0 else k;
    } else {
      x, l := r, k;
    }
  }

  /** If the block is right with registers that have nothing in common, its uses are. */
  lemma MarkedOwnOk(b: Block, env: Env)
    requires b.Proper() && b.Fits(env) && Marked(b, env) && KeepsCells(b, env)
    ensures b.OwnOk()
  {
    hide Marked, UsesProper;
    if b.DestTouched() {
      var c, k := b.dest.cell, 1 - b.Index();
      var p := 2 * c + k;
      assert p / 2 == c && p % 2 == k && b.acc[c] in b.acc.Values;
      assert b.Now()[c] == b.Next();
      assert b.HoldsAt(env, b.Now(), p) == Written(env, b.input, b.dest, b.acc, p);
      MarkedApart(b, env, b.own, b.acc[c], k, k);
    }
  }

  lemma MarkedBeforeOk(b: Block, env: Env, u: Use, k: nat)
    requires b.Proper() && b.Fits(env) && Marked(b, env) && u in b.before && k < u.src.Size() && OldHalf(b, env, u, k)
    ensures b.BeforeOk(u, k)
  {
    hide Marked, UsesProper;
    UseCell(b, u, k);
    var p := u.src.Start() + k;
    assert b.acc[p / 2] in b.acc.Values;
    MarkedApart(b, env, u.from[p / 2], b.acc[p / 2], p % 2, p % 2);
  }

  lemma MarkedAfterOk(b: Block, env: Env, u: Use, k: nat)
    requires b.Proper() && b.Fits(env) && Marked(b, env) && b.OwnOk() && u in b.after && k < u.src.Size() &&
             NewHalf(b, env, u, k)
    ensures b.AfterOk(u, k)
  {
    hide Block.Proper, Block.Holds, Block.Fits, Block.Agree, Block.OwnOk, Block.Regs, Block.Now, Get, Written, Marked;
    var p := u.src.Start() + k;
    RegsBelow(b);
    UseCell(b, u, k);
    HoldsSize(b, env, u.from[p / 2]);
    CellsKept(b, env, p);
    DistinctHolds(b, env, u.from[p / 2], b.Now()[p / 2], p % 2);
  }

  lemma MarkedRight(b: Block, env: Env)
    requires b.Proper() && b.Fits(env) && Marked(b, env) && b.Right(env)
    ensures b.UsesOk()
  {
    assert Accessible(b.dest, b.acc.Keys);
    hide Block.Right, Block.Proper, Block.Fits, Block.OwnOk, Marked, OldHalf, NewHalf, Block.BeforeOk, Block.AfterOk,
         KeepsCells;
    RightIff(b, env);
    MarkedOwnOk(b, env);
    forall u, k: nat | u in b.before && k < u.src.Size() ensures b.BeforeOk(u, k) {
      assert SeesOld(b, env, u);
      MarkedBeforeOk(b, env, u, k);
    }
    forall u, k: nat | u in b.after && k < u.src.Size() ensures b.AfterOk(u, k) {
      assert SeesNew(b, env, u);
      MarkedAfterOk(b, env, u, k);
    }
  }

  /** A value that tells its register and its place. */
  function Mark(r: VReg, size: nat, width: nat): (v: Value)
    ensures |v| == size && forall k | 0 <= k < size :: v[k] == r * width + k
  {
    seq<nat>(size, k requires 0 <= k < size => r * width + k)
  }

  lemma {:induction false} RowsApart(r: nat, s: nat, width: nat)
    requires r < s
    ensures r * width + width <= s * width
    decreases s
  {
    if r + 1 < s {
      RowsApart(r, s - 1, width);
    }
  }

  lemma MarksApart(r: nat, s: nat, k: nat, l: nat, width: nat)
    requires k < width && l < width && r * width + k == s * width + l
    ensures r == s && k == l
  {
    if r < s {
      RowsApart(r, s, width);
    } else if s < r {
      RowsApart(s, r, width);
    }
  }

  lemma MarkedExists(b: Block) returns (env: Env)
    requires b.Proper()
    ensures b.Fits(env) && Marked(b, env)
  {
    var width := b.dest.Size() + 2;
    env := map r | r in b.Regs() + {b.input} :: Mark(r, if r == b.input then b.dest.Size() else 2, width);
    if b.input in b.Regs() {
      InputSize(b);
    }
    forall r, s, k: nat, l: nat | r in b.Regs() + {b.input} && s in b.Regs() + {b.input} && k < |Get(env, r)| &&
                                  l < |Get(env, s)| && Get(env, r)[k] == Get(env, s)[l]
      ensures r == s && k == l
    {
      MarksApart(r, s, k, l, width);
    }
  }

  lemma InputSize(b: Block)
    requires b.Proper() && b.input in b.Regs()
    ensures b.dest.Size() == 2
  {
    RegsBelow(b);
    if b.input !in b.acc.Values {
      var c :| c in b.Fresh() && b.Fresh()[c] == b.input;
    }
  }

  /** Whichever uses were redirected: the block is right for all values exactly when every
      use names a register that has the half it is for at that point. No use before the
      write or in it may lead to a new register, and every use after it has to, but where
      the half beside a written one is read. */
  lemma RedirectionRightIff(b: Block)
    requires b.Proper()
    ensures (forall env | b.Fits(env) :: b.Right(env)) <==> b.UsesOk()
  {
    hide Block.Right, Block.UsesOk, Block.Fits, Marked;
    if b.UsesOk() {
      forall env | b.Fits(env) ensures b.Right(env) {
        UsesOkIsRight(b, env);
      }
    }
    if forall env | b.Fits(env) :: b.Right(env) {
      var env := MarkedExists(b);
      MarkedRight(b, env);
    }
  }

  /** A read of one whole cell after the write, in numbers. */
  lemma OneCellAfter(b: Block, env: Env, u: Use)
    requires b.Proper() && b.Fits(env) && u in b.after && u.src.Wide? && u.src.channels == 1
    ensures var p := 2 * u.src.first;
            && Get(Run(env, b.Code()), u.out) == [b.HoldsAt(env, u.from, p), b.HoldsAt(env, u.from, p + 1)]
            && b.Meant(env, u.src) ==
                [Written(env, b.input, b.dest, b.acc, p), Written(env, b.input, b.dest, b.acc, p + 1)]
  {
    hide Block.HoldsAt, Written, Block.Proper, Block.Fits, Run;
    BlockRun(b, env);
    var p, v, w := 2 * u.src.first, Get(Run(env, b.Code()), u.out), b.Meant(env, u.src);
    assert FindsNew(b, env, v, u);
    assert v[0] == b.HoldsAt(env, u.from, u.src.Start() + 0) && v[1] == b.HoldsAt(env, u.from, u.src.Start() + 1);
    assert w[0] == Written(env, b.input, b.dest, b.acc, p) && w[1] == Written(env, b.input, b.dest, b.acc, p + 1);
  }

  lemma OneCellBefore(b: Block, env: Env, u: Use)
    requires b.Proper() && b.Fits(env) && u in b.before && u.src.Wide? && u.src.channels == 1
    ensures var p := 2 * u.src.first;
            && Get(Run(env, b.Code()), u.out) == [HalfAt(env, u.from, p), HalfAt(env, u.from, p + 1)]
            && Seen(env, b.acc, u.src) == [HalfAt(env, b.acc, p), HalfAt(env, b.acc, p + 1)]
  {
    hide Block.Proper, Block.Fits, Run, HalfAt;
    BlockRun(b, env);
    var p, v, w := 2 * u.src.first, Seen(env, u.from, u.src), Seen(env, b.acc, u.src);
    assert u.src.Start() == p && u.src.Size() == 2;
    assert v[0] == HalfAt(env, u.from, p + 0) && v[1] == HalfAt(env, u.from, p + 1);
    assert w[0] == HalfAt(env, b.acc, p + 0) && w[1] == HalfAt(env, b.acc, p + 1);
  }
}
