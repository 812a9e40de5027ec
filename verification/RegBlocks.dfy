/** Whole blocks of code that read and write physical registers through the intrinsics,
    lowered one intrinsic after the other. */
module RegBlocks {
  import opened Wrappers
  import opened RegLowering

  /** An intrinsic, or other code around them. */
  datatype Op = Read(out: VReg, src: PhysReg) | Write(input: VReg, dest: PhysReg) | Other(instr: Instr)

  // ---- the lowered block

  /** The code so far, the registers that hold the cells, and the next new register. */
  datatype Lowered = Lowered(code: seq<Instr>, acc: Cells, next: VReg)

  ghost predicate Accessible(reg: PhysReg, cells: set<nat>) {
    reg.Valid() && forall c | reg.Touches(c) :: c in cells
  }

  ghost predicate OpAccessible(op: Op, cells: set<nat>) {
    match op
    case Read(_, src) => Accessible(src, cells)
    case Write(_, dest) => Accessible(dest, cells)
    case Other(_) => true
  }

  ghost predicate AllAccessible(ops: seq<Op>, cells: set<nat>) {
    forall i | 0 <= i < |ops| :: OpAccessible(ops[i], cells)
  }

  /** Registers the lowered read makes. */
  function Merged(src: PhysReg): nat {
    if src.Wide? && src.channels > 1 then 1 else 0
  }

  ghost function LowerOne(l: Lowered, op: Op): (r: Lowered)
    requires OpAccessible(op, l.acc.Keys)
    ensures r.acc.Keys == l.acc.Keys && r.next >= l.next
  {
    match op
    case Read(out, src) => Lowered(l.code + ReadCode(out, src, l.acc, l.next), l.acc, l.next + Merged(src))
    case Write(input, dest) =>
      WrittenTouched(input, dest, l.next);
      Lowered(l.code + WriteCode(input, dest, l.acc, l.next), l.acc + WriteMap(input, dest, l.next),
              l.next + Made(dest))
    case Other(i) => Lowered(l.code + [i], l.acc, l.next)
  }

  lemma WrittenTouched(input: VReg, dest: PhysReg, next: VReg)
    requires dest.Valid()
    ensures forall c :: c in WriteMap(input, dest, next) <==> dest.Touches(c)
  {
  }

  /** Every intrinsic is lowered with the registers that hold the cells by then. */
  ghost function Lower(ops: seq<Op>, acc: Cells, next: VReg): (l: Lowered)
    requires AllAccessible(ops, acc.Keys)
    ensures l.acc.Keys == acc.Keys && l.next >= next
  {
    if ops == [] then Lowered([], acc, next)
    else
      var n := |ops| - 1;
      LowerOne(Lower(ops[..n], acc, next), ops[n])
  }

  // ---- the block on physical registers

  /** Virtual registers, and the halves of the physical ones. */
  datatype Machine = Machine(env: Env, file: nat -> nat)

  ghost function Slice(file: nat -> nat, reg: PhysReg): Value {
    seq<nat>(reg.Size(), k requires 0 <= k < reg.Size() => file(reg.Start() + k))
  }

  ghost function Effect(m: Machine, op: Op): Machine {
    match op
    case Read(out, src) => m.(env := m.env[out := Slice(m.file, src)])
    case Write(input, dest) => m.(file := Overwritten(m.file, dest, Get(m.env, input)))
    case Other(i) => m.(env := Step(m.env, i))
  }

  ghost function Overwritten(file: nat -> nat, dest: PhysReg, v: Value): nat -> nat {
    (p: nat) => if Covers(dest, p) && p - dest.Start() < |v| then v[p - dest.Start()] else file(p)
  }

  ghost function Execute(ops: seq<Op>, m: Machine): Machine {
    if ops == [] then m else Effect(Execute(ops[..|ops| - 1], m), ops[|ops| - 1])
  }

  // ---- which blocks

  predicate Below(i: Instr, bound: VReg) {
    match i
    case Copy(d, s, _) => d < bound && s < bound
    case RegSequence(d, srcs) => d < bound && forall k | 0 <= k < |srcs| :: srcs[k].0 < bound
    case InsertSubreg(d, s, p, _) => d < bound && s < bound && p < bound
  }

  /** The inputs of the writes. */
  ghost function Inputs(ops: seq<Op>): set<VReg> {
    set i | 0 <= i < |ops| && ops[i].Write? :: ops[i].input
  }

  /** A virtual register is defined once: nothing defines one that holds a cell or was
      given to a write. Only registers from before are named, and what is written has the
      size of its destination. */
  ghost predicate ProperOp(op: Op, earlier: seq<Op>, acc: Cells, next: VReg, m: Machine) {
    match op
    case Read(out, _) => out < next && out !in acc.Values && out !in Inputs(earlier)
    case Write(input, dest) => input < next && |Get(m.env, input)| == dest.Size()
    case Other(i) => Below(i, next) && i.def !in acc.Values && i.def !in Inputs(earlier)
  }

  ghost predicate ProperBlock(ops: seq<Op>, acc: Cells, next: VReg, m: Machine) {
    && AllAccessible(ops, acc.Keys)
    && forall i | 0 <= i < |ops| :: ProperOp(ops[i], ops[..i], acc, next, Execute(ops[..i], m))
  }

  /** The registers hold what the physical ones have. */
  ghost predicate Mirrors(e: Env, acc: Cells, next: VReg, m: Machine, bound: VReg) {
    && bound <= next
    && (forall r: VReg | r < bound :: Get(e, r) == Get(m.env, r))
    && (forall c | c in acc :: HeldCell(e, acc, c, next))
    && (forall p: nat | p / 2 in acc :: HalfAt(e, acc, p) == m.file(p))
  }

  // ---- lowering keeps the meaning

  lemma {:induction false} RunAppend(env: Env, a: seq<Instr>, b: seq<Instr>)
    ensures Run(env, a + b) == Run(Run(env, a), b)
    decreases |b|
  {
    hide Step;
    if b == [] {
      assert a + b == a;
    } else {
      var n := |b| - 1;
      RunAppend(env, a, b[..n]);
      assert (a + b)[..|a| + n] == a + b[..n] && (a + b)[|a| + n] == b[n];
    }
  }

  /** What a read leaves alone. */
  lemma ReadKeeps(env: Env, out: VReg, src: PhysReg, acc: Cells, next: VReg, r: VReg)
    requires src.Valid() && (forall c | src.Touches(c) :: c in acc) && r != out && !(next <= r < next + Merged(src))
    ensures Get(Run(env, ReadCode(out, src, acc, next)), r) == Get(env, r)
  {
    match src {
      case Wide(f, n) =>
        assert src.Touches(f);
        if n > 1 {
          assert forall c | f <= c < f + n :: src.Touches(c);
          RunTwo(env, RegSequence(next, ChannelSources(acc, f, n)), Copy(out, next, None));
          assert r != next;
        } else {
          RunOne(env, Copy(out, acc[f], None));
        }
      case Half(c, high) =>
        assert src.Touches(c);
        RunOne(env, Copy(out, acc[c], Some(Part(high))));
    }
  }

  lemma ReadStep(e: Env, acc: Cells, next: VReg, m: Machine, bound: VReg, out: VReg, src: PhysReg)
    requires Mirrors(e, acc, next, m, bound) && Accessible(src, acc.Keys) && out < bound && out !in acc.Values
    ensures Mirrors(Run(e, ReadCode(out, src, acc, next)), acc, next + Merged(src), Effect(m, Read(out, src)), bound)
  {
    hide ReadCode, Run, Get, HalfAt, PhysReg.Touches;
    var e' := Run(e, ReadCode(out, src, acc, next));
    assert forall c | src.Touches(c) :: c in acc && HeldCell(e, acc, c, next);
    forall r: nat | r < next && r != out ensures Get(e', r) == Get(e, r) {
      ReadKeeps(e, out, src, acc, next, r);
    }
    ReadIsSlice(e, acc, next, m, out, src);
    SetIsGet(m.env, out, Slice(m.file, src));
    forall c | c in acc ensures HeldCell(e', acc, c, next + Merged(src)) {
      assert HeldCell(e, acc, c, next) && acc[c] in acc.Values;
    }
    forall p: nat | p / 2 in acc ensures HalfAt(e', acc, p) == m.file(p) {
      assert HeldCell(e, acc, p / 2, next) && acc[p / 2] in acc.Values;
      SameHalf(e, e', acc, p);
    }
  }

  lemma SetIsGet(env: Env, r: VReg, v: Value)
    ensures Get(env[r := v], r) == v && forall s | s != r :: Get(env[r := v], s) == Get(env, s)
  {
  }

  lemma SameHalf(e: Env, e': Env, acc: Cells, p: nat)
    requires p / 2 in acc && Get(e', acc[p / 2]) == Get(e, acc[p / 2])
    ensures HalfAt(e', acc, p) == HalfAt(e, acc, p)
  {
  }

  lemma ReadIsSlice(e: Env, acc: Cells, next: VReg, m: Machine, out: VReg, src: PhysReg)
    requires Accessible(src, acc.Keys) && forall c | c in acc :: HeldCell(e, acc, c, next)
    requires forall p: nat | p / 2 in acc :: HalfAt(e, acc, p) == m.file(p)
    ensures Get(Run(e, ReadCode(out, src, acc, next)), out) == Slice(m.file, src)
  {
    hide Run, ReadCode, HalfAt, Get;
    assert Held(e, acc, src, next);
    SizePositive(src);
    ReadMeaning(e, out, src, acc, next, next, 0);
    var v := ReadResult(e, out, src, acc, next);
    forall k | 0 <= k < src.Size() ensures v[k] == m.file(src.Start() + k) {
      ReadMeaning(e, out, src, acc, next, next, k);
    }
  }

  lemma SizePositive(reg: PhysReg)
    requires reg.Valid()
    ensures reg.Size() > 0
  {
  }

  lemma WriteStep(e: Env, acc: Cells, next: VReg, m: Machine, bound: VReg, input: VReg, dest: PhysReg)
    requires Mirrors(e, acc, next, m, bound) && Accessible(dest, acc.Keys) && input < bound
    requires |Get(m.env, input)| == dest.Size()
    ensures Mirrors(Run(e, WriteCode(input, dest, acc, next)), acc + WriteMap(input, dest, next), next + Made(dest),
                    Effect(m, Write(input, dest)), bound)
  {
    hide Run, WriteCode, Get, HalfAt, WriteMap;
    WrittenTouched(input, dest, next);
    var e', acc' := AfterWrite(e, input, dest, acc, next), acc + WriteMap(input, dest, next);
    assert Held(e, acc, dest, next);
    forall r: VReg | r < bound ensures Get(e', r) == Get(m.env, r) {
      OlderKept(e, input, dest, acc, next, r);
    }
    forall c | c in acc' ensures HeldCell(e', acc', c, next + Made(dest)) {
      assert HeldCell(e, acc, c, next) && (2 * c) / 2 == c;
      WriteMeaning(e, input, dest, acc, next, 2 * c);
    }
    forall p: nat | p / 2 in acc' ensures HalfAt(e', acc', p) == Overwritten(m.file, dest, Get(m.env, input))(p) {
      assert HeldCell(e, acc, p / 2, next);
      WriteMeaning(e, input, dest, acc, next, p);
    }
  }

  lemma {:induction false} AssembleSame(e: Env, e': Env, srcs: seq<(VReg, nat)>, v: Value)
    requires forall k | 0 <= k < |srcs| :: Get(e', srcs[k].0) == Get(e, srcs[k].0)
    ensures Assemble(e', srcs, v) == Assemble(e, srcs, v)
    decreases |srcs|
  {
    if srcs != [] {
      AssembleSame(e, e', srcs[..|srcs| - 1], v);
    }
  }

  /** What other code defines depends on the registers it names. */
  lemma SameResult(e: Env, e': Env, i: Instr, bound: VReg) returns (v: Value)
    requires Below(i, bound) && forall r: VReg | r < bound :: Get(e', r) == Get(e, r)
    ensures Step(e, i) == e[i.def := v] && Step(e', i) == e'[i.def := v]
  {
    hide Assemble, Extract;
    match i {
      case Copy(d, s, sub) =>
        assert Get(e', s) == Get(e, s);
        v := if sub.None? then Get(e, s) else Extract(Get(e, s), sub.value);
      case RegSequence(d, srcs) =>
        AssembleSame(e, e', srcs, Zeros(2 * |srcs|));
        v := Assemble(e, srcs, Zeros(2 * |srcs|));
      case InsertSubreg(d, s, p, high) =>
        assert Get(e', s) == Get(e, s) && Get(e', p) == Get(e, p);
        v := Get(Step(e, i), d);
    }
  }

  lemma StepSame(e: Env, e': Env, i: Instr, bound: VReg)
    requires Below(i, bound) && forall r: VReg | r < bound :: Get(e', r) == Get(e, r)
    ensures forall r: VReg | r < bound :: Get(Step(e', i), r) == Get(Step(e, i), r)
    ensures forall r: VReg | r != i.def :: Get(Step(e', i), r) == Get(e', r)
  {
    hide Get, Step;
    var v := SameResult(e, e', i, bound);
    SetIsGet(e, i.def, v);
    SetIsGet(e', i.def, v);
  }

  lemma OtherStep(e: Env, acc: Cells, next: VReg, m: Machine, bound: VReg, i: Instr)
    requires Mirrors(e, acc, next, m, bound) && Below(i, bound) && i.def !in acc.Values
    ensures Mirrors(Run(e, [i]), acc, next, Effect(m, Other(i)), bound)
  {
    hide Run, Get, HalfAt, Step;
    RunOne(e, i);
    StepSame(m.env, e, i, bound);
    forall c | c in acc ensures HeldCell(Step(e, i), acc, c, next) {
      assert HeldCell(e, acc, c, next) && acc[c] in acc.Values;
    }
    forall p: nat | p / 2 in acc ensures HalfAt(Step(e, i), acc, p) == m.file(p) {
      assert acc[p / 2] in acc.Values;
      SameHalf(e, Step(e, i), acc, p);
    }
  }

  /** The registers that hold cells are those from the beginning, inputs of writes, and
      new ones. */
  lemma {:induction false} HoldersKnown(ops: seq<Op>, acc: Cells, next: VReg, r: VReg)
    requires AllAccessible(ops, acc.Keys) && r in Lower(ops, acc, next).acc.Values && r < next
    ensures r in acc.Values || r in Inputs(ops)
    decreases |ops|
  {
    if ops != [] {
      var n := |ops| - 1;
      var l, op := Lower(ops[..n], acc, next), ops[n];
      assert forall i | 0 <= i < n :: ops[..n][i] == ops[i];
      assert Inputs(ops[..n]) <= Inputs(ops);
      if r in l.acc.Values {
        HoldersKnown(ops[..n], acc, next, r);
      } else {
        assert op.Write? && r in WriteMap(op.input, op.dest, l.next).Values;
        assert r == op.input && ops[n].input in Inputs(ops);
      }
    }
  }

  lemma OpStep(e: Env, l: Lowered, m: Machine, bound: VReg, op: Op)
    requires Mirrors(Run(e, l.code), l.acc, l.next, m, bound) && OpAccessible(op, l.acc.Keys)
    requires match op
             case Read(out, _) => out < bound && out !in l.acc.Values
             case Write(input, dest) => input < bound && |Get(m.env, input)| == dest.Size()
             case Other(i) => Below(i, bound) && i.def !in l.acc.Values
    ensures var k := LowerOne(l, op); Mirrors(Run(e, k.code), k.acc, k.next, Effect(m, op), bound)
  {
    hide Mirrors, ReadCode, WriteCode, WriteMap, Effect, Run, Get, Below;
    var e' := Run(e, l.code);
    match op {
      case Read(out, src) =>
        ReadStep(e', l.acc, l.next, m, bound, out, src);
        RunAppend(e, l.code, ReadCode(out, src, l.acc, l.next));
      case Write(input, dest) =>
        WriteStep(e', l.acc, l.next, m, bound, input, dest);
        RunAppend(e, l.code, WriteCode(input, dest, l.acc, l.next));
      case Other(i) =>
        OtherStep(e', l.acc, l.next, m, bound, i);
        RunAppend(e, l.code, [i]);
    }
  }

  /** A lowered block does on virtual registers what it does on physical ones: after it,
      and so after each of its intrinsics, every cell is held as the block left it, and
      every register from before has the value it should have. */
  lemma {:induction false} LoweredBlockRuns(ops: seq<Op>, acc: Cells, next: VReg, e: Env, m: Machine)
    requires ProperBlock(ops, acc, next, m) && Mirrors(e, acc, next, m, next)
    ensures var l := Lower(ops, acc, next); Mirrors(Run(e, l.code), l.acc, l.next, Execute(ops, m), next)
    decreases |ops|
  {
    hide Mirrors, LowerOne, Effect, Run, OpAccessible;
    if ops == [] {
      RunNothing(e);
    } else {
      var n := |ops| - 1;
      ProperPrefix(ops, acc, next, m, n);
      LoweredBlockRuns(ops[..n], acc, next, e, m);
      var m' := Execute(ops[..n], m);
      assert ProperOp(ops[n], ops[..n], acc, next, m');
      if !ops[n].Write? {
        NotHolder(ops[..n], acc, next, if ops[n].Read? then ops[n].out else ops[n].instr.def);
      }
      OpStep(e, Lower(ops[..n], acc, next), m', next, ops[n]);
    }
  }

  lemma RunNothing(e: Env)
    ensures Run(e, []) == e
  {
  }

  lemma NotHolder(ops: seq<Op>, acc: Cells, next: VReg, r: VReg)
    requires AllAccessible(ops, acc.Keys) && r < next && r !in acc.Values && r !in Inputs(ops)
    ensures r !in Lower(ops, acc, next).acc.Values
  {
    if r in Lower(ops, acc, next).acc.Values {
      HoldersKnown(ops, acc, next, r);
    }
  }

  lemma ProperPrefix(ops: seq<Op>, acc: Cells, next: VReg, m: Machine, n: nat)
    requires ProperBlock(ops, acc, next, m) && n <= |ops|
    ensures ProperBlock(ops[..n], acc, next, m)
  {
    forall i | 0 <= i < n ensures ProperOp(ops[..n][i], ops[..n][..i], acc, next, Execute(ops[..n][..i], m)) {
      assert ops[..n][..i] == ops[..i];
    }
  }

  // ---- what a read sees

  /** No op from `i` on writes the half. */
  ghost predicate Untouched(ops: seq<Op>, i: nat, p: nat) {
    forall j | i <= j < |ops| && ops[j].Write? :: !Covers(ops[j].dest, p)
  }

  /** A half is what the last write that covers it wrote, or what it was. */
  lemma {:induction false} LastWrite(ops: seq<Op>, m: Machine, i: nat, p: nat)
    requires i <= |ops| && Untouched(ops, i, p)
    ensures Execute(ops, m).file(p) == Execute(ops[..i], m).file(p)
    decreases |ops|
  {
    if i < |ops| {
      var n := |ops| - 1;
      assert forall j | i <= j < n :: ops[..n][j] == ops[j];
      LastWrite(ops[..n], m, i, p);
      assert ops[..n][..i] == ops[..i];
    } else {
      assert ops[..i] == ops;
    }
  }

  /** The output of a read at the end of a block is the slice of the physical registers. */
  lemma ReadGetsSlice(ops: seq<Op>, acc: Cells, next: VReg, e: Env, m: Machine, out: VReg, src: PhysReg)
    requires ProperBlock(ops + [Read(out, src)], acc, next, m) && Mirrors(e, acc, next, m, next)
    ensures Get(Run(e, Lower(ops + [Read(out, src)], acc, next).code), out) == Slice(Execute(ops, m).file, src)
    ensures ProperBlock(ops, acc, next, m)
  {
    hide Mirrors, Lower, Get, Run, Slice, AllAccessible;
    var all := ops + [Read(out, src)];
    assert all[..|ops|] == ops && all[|ops|] == Read(out, src);
    ProperPrefix(all, acc, next, m, |ops|);
    LoweredBlockRuns(all, acc, next, e, m);
    assert ProperOp(all[|ops|], all[..|ops|], acc, next, Execute(all[..|ops|], m));
    var l := Lower(all, acc, next);
    MirrorsGet(Run(e, l.code), l.acc, l.next, Execute(all, m), next, out);
    SetIsGet(Execute(ops, m).env, out, Slice(Execute(ops, m).file, src));
  }

  /** What half `p` is when op `i - 1` was the last to write it, or none for 0. */
  ghost function LastWritten(ops: seq<Op>, m: Machine, i: nat, p: nat): nat
    requires i <= |ops| && (i > 0 ==> ops[i - 1].Write? && Covers(ops[i - 1].dest, p))
  {
    if i == 0 then m.file(p)
    else
      var x := Get(Execute(ops[..i - 1], m).env, ops[i - 1].input);
      if p - ops[i - 1].dest.Start() < |x| then x[p - ops[i - 1].dest.Start()] else 0
  }

  lemma LastWrittenIs(ops: seq<Op>, m: Machine, i: nat, p: nat)
    requires i <= |ops| && (i > 0 ==> ops[i - 1].Write? && Covers(ops[i - 1].dest, p))
    requires i > 0 ==> |Get(Execute(ops[..i - 1], m).env, ops[i - 1].input)| == ops[i - 1].dest.Size()
    ensures Execute(ops[..i], m).file(p) == LastWritten(ops, m, i, p)
  {
    if i > 0 {
      assert ops[..i][..i - 1] == ops[..i - 1];
    }
  }

  /** Every read of a lowered block returns, half by half, the value last written there in
      the block, or the one the block began with. */
  lemma ReadsSeeLastWrites(ops: seq<Op>, acc: Cells, next: VReg, e: Env, m: Machine, out: VReg, src: PhysReg, i: nat,
                           k: nat)
    requires ProperBlock(ops + [Read(out, src)], acc, next, m) && Mirrors(e, acc, next, m, next) && k < src.Size()
    requires i <= |ops| && Untouched(ops, i, src.Start() + k)
    requires i > 0 ==> ops[i - 1].Write? && Covers(ops[i - 1].dest, src.Start() + k)
    ensures var v := Get(Run(e, Lower(ops + [Read(out, src)], acc, next).code), out);
            |v| == src.Size() && v[k] == LastWritten(ops, m, i, src.Start() + k)
  {
    hide Mirrors, Lower, Get, Run, AllAccessible, OpAccessible, LastWritten, Execute, Covers, PhysReg.Start,
         PhysReg.Size;
    ReadGetsSlice(ops, acc, next, e, m, out, src);
    LastWrite(ops, m, i, src.Start() + k);
    if i > 0 {
      assert ProperOp(ops[i - 1], ops[..i - 1], acc, next, Execute(ops[..i - 1], m));
    }
    LastWrittenIs(ops, m, i, src.Start() + k);
  }

  lemma MirrorsGet(e: Env, acc: Cells, next: VReg, m: Machine, bound: VReg, r: VReg)
    requires Mirrors(e, acc, next, m, bound) && r < bound
    ensures Get(e, r) == Get(m.env, r)
  {
  }
}
