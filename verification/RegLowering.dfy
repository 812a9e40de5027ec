/** Lowering of the intrinsics that read and write physical registers. */
module RegLowering {
  import opened Wrappers

  /** A run of 32-bit cells, or one half of a cell. */
  datatype PhysReg = Wide(first: nat, channels: nat) | Half(cell: nat, high: bool) {
    predicate Valid() {
      Wide? ==> channels >= 1
    }

    /** Its place among the 16-bit halves of all cells, two to a cell. */
    function Start(): nat {
      match this
      case Wide(f, _) => 2 * f
      case Half(c, high) => 2 * c + if high then 1 else 0
    }

    function Size(): nat {
      match this
      case Wide(_, n) => 2 * n
      case Half(_, _) => 1
    }

    /** The cells it lies in. */
    predicate Touches(c: nat) {
      match this
      case Wide(f, n) => f <= c < f + n
      case Half(cell, _) => c == cell
    }
  }

  type VReg = nat

  /** The 16-bit halves of a value, least significant first. */
  type Value = seq<nat>

  datatype SubIdx = Channel(i: nat) | Part(high: bool)

  datatype Instr =
    | Copy(def: VReg, src: VReg, sub: Option<SubIdx>)
    | RegSequence(def: VReg, srcs: seq<(VReg, nat)>)
    | InsertSubreg(def: VReg, src: VReg, part: VReg, high: bool)

  type Env = map<VReg, Value>

  // ---- what the emitted instructions do

  function Get(env: Env, r: VReg): Value {
    if r in env then env[r] else []
  }

  function Extract(v: Value, s: SubIdx): Value {
    match s
    case Channel(i) => if 2 * i + 2 <= |v| then v[2 * i..2 * i + 2] else []
    case Part(high) => if |v| == 2 then [v[if high then 1 else 0]] else []
  }

  /** `v` with channel `i` replaced. */
  function Place(v: Value, i: nat, x: Value): Value {
    if 2 * i + 2 <= |v| && |x| == 2 then v[2 * i := x[0]][2 * i + 1 := x[1]] else v
  }

  function Assemble(env: Env, srcs: seq<(VReg, nat)>, v: Value): Value {
    if srcs == [] then v
    else
      var n := |srcs| - 1;
      Place(Assemble(env, srcs[..n], v), srcs[n].1, Get(env, srcs[n].0))
  }

  function Zeros(n: nat): (v: Value)
    ensures |v| == n
  {
    seq(n, _ => 0)
  }

  function Step(env: Env, i: Instr): Env {
    match i
    case Copy(d, s, sub) => env[d := if sub.None? then Get(env, s) else Extract(Get(env, s), sub.value)]
    case RegSequence(d, srcs) => env[d := Assemble(env, srcs, Zeros(2 * |srcs|))]
    case InsertSubreg(d, s, p, high) =>
      var v, x := Get(env, s), Get(env, p);
      env[d := if |v| == 2 && |x| == 1 then v[(if high then 1 else 0) := x[0]] else v]
  }

  function Run(env: Env, code: seq<Instr>): Env {
    if code == [] then env else Step(Run(env, code[..|code| - 1]), code[|code| - 1])
  }

  // ---- the code the lowering emits

  /** The virtual registers that hold the cells. */
  type Cells = map<nat, VReg>

  function ChannelSources(acc: Cells, first: nat, n: nat): (s: seq<(VReg, nat)>)
    requires forall c | first <= c < first + n :: c in acc
    ensures |s| == n
  {
    if n == 0 then [] else ChannelSources(acc, first, n - 1) + [(acc[first + n - 1], n - 1)]
  }

  function ReadCode(out: VReg, src: PhysReg, acc: Cells, next: VReg): seq<Instr>
    requires src.Valid() && forall c | src.Touches(c) :: c in acc
  {
    match src
    case Wide(f, n) =>
      assert src.Touches(f);
      if n > 1 then
        assert forall c | f <= c < f + n :: src.Touches(c);
        [RegSequence(next, ChannelSources(acc, f, n)), Copy(out, next, None)]
      else [Copy(out, acc[f], None)]
    case Half(c, high) =>
      assert src.Touches(c);
      [Copy(out, acc[c], Some(Part(high)))]
  }

  function ChannelCopies(input: VReg, n: nat, next: VReg): (s: seq<Instr>)
    ensures |s| == n
  {
    if n == 0 then [] else ChannelCopies(input, n - 1, next) + [Copy(next + n - 1, input, Some(Channel(n - 1)))]
  }

  function WriteCode(input: VReg, dest: PhysReg, acc: Cells, next: VReg): seq<Instr>
    requires forall c | dest.Touches(c) :: c in acc
  {
    match dest
    case Wide(f, n) => if n > 1 then ChannelCopies(input, n, next) else []
    case Half(c, high) =>
      assert dest.Touches(c);
      [InsertSubreg(next, acc[c], input, high)]
  }

  function SubRegs(first: nat, n: nat, next: VReg): (m: Cells)
    ensures forall c: nat :: c in m <==> first <= c < first + n
    ensures forall c | c in m :: m[c] == next + (c - first)
  {
    if n == 0 then map[] else SubRegs(first, n - 1, next)[first + n - 1 := next + n - 1]
  }

  /** Which registers hold the cells of `dest` after the write. */
  function WriteMap(input: VReg, dest: PhysReg, next: VReg): Cells {
    match dest
    case Wide(f, n) => if n > 1 then SubRegs(f, n, next) else map[f := input]
    case Half(c, _) => map[c := next]
  }

  /** Insertion into a map does not replace what is there. */
  function Inserted(earlier: Cells, added: Cells): Cells {
    added + earlier
  }

  lemma InsertNone(earlier: Cells, first: nat, next: VReg)
    ensures Inserted(earlier, SubRegs(first, 0, next)) == earlier
  {
  }

  lemma InsertStep(earlier: Cells, first: nat, n: nat, next: VReg)
    ensures var m := Inserted(earlier, SubRegs(first, n, next));
            Inserted(earlier, SubRegs(first, n + 1, next)) == if first + n in m then m else m[first + n := next + n]
  {
    assert first + n in Inserted(earlier, SubRegs(first, n, next)) <==> first + n in earlier;
  }

  // ---- the processors

  datatype ArgKind = RegDef | RegUse | OtherKind

  datatype Arg = Arg(kind: ArgKind, reg: VReg)

  datatype Error = WrongNumberOfArgs | NotADefinition | NotAUse | SizeMismatch

  /** The registers from `first` to `next` are new and have 32 bits. */
  ghost predicate SizesGrown(before: map<VReg, nat>, sizes: map<VReg, nat>, first: VReg, next: VReg) {
    && (forall r: VReg :: r in sizes <==> r in before || first <= r < next)
    && forall r | r in sizes :: sizes[r] == if first <= r < next then 2 else before[r]
  }

  class Lowering {
    var code: seq<Instr>
    var next: VReg
    /** Sizes of virtual registers, in halves. */
    var sizes: map<VReg, nat>

    constructor (next: VReg, sizes: map<VReg, nat>)
      ensures code == [] && this.next == next && this.sizes == sizes
    {
      code, this.next, this.sizes := [], next, sizes;
    }

    method BuildVirtReg(size: nat) returns (r: VReg)
      modifies this`next, this`sizes
      ensures r == old(next) && next == r + 1 && sizes == old(sizes)[r := size]
    {
      r := next;
      next, sizes := next + 1, sizes[r := size];
    }

    method Emit(i: Instr)
      modifies this`code
      ensures code == old(code) + [i]
    {
      code := code + [i];
    }

    method ReadRegMIRProcessor(args: seq<Arg>, src: PhysReg, acc: Cells) returns (r: Option<Error>)
      requires src.Valid() && forall c | src.Touches(c) :: c in acc
      modifies this
      ensures |args| != 1 ==> r == Some(WrongNumberOfArgs)
      ensures |args| == 1 && args[0].kind != RegDef ==> r == Some(NotADefinition)
      ensures |args| == 1 && args[0].kind == RegDef ==>
                r == None && code == old(code) + ReadCode(args[0].reg, src, acc, old(next))
      ensures r.Some? ==> code == old(code) && next == old(next) && sizes == old(sizes)
      ensures r.None? ==> next == old(next) + if src.Wide? && src.channels > 1 then 1 else 0
      ensures r.None? ==> sizes == if next > old(next) then old(sizes)[old(next) := src.Size()] else old(sizes)
    {
      if |args| != 1 {
        return Some(WrongNumberOfArgs);
      }
      if args[0].kind != RegDef {
        return Some(NotADefinition);
      }
      var output := args[0].reg;
      if src.Size() > 2 {
        assert forall c | src.first <= c < src.first + src.channels :: src.Touches(c);
        var merged := BuildVirtReg(src.Size());
        var numChannels := src.Size() / 2;
        var sources: seq<(VReg, nat)> := [];
        for i := 0 to numChannels
          invariant sources == ChannelSources(acc, src.first, i)
        {
          sources := sources + [(acc[src.first + i], i)];
        }
        Emit(RegSequence(merged, sources));
        Emit(Copy(output, merged, None));
      } else if src.Size() == 2 {
        assert src.Touches(src.first);
        Emit(Copy(output, acc[src.first], None));
      } else {
        Emit(Copy(output, acc[src.cell], Some(Part(src.high))));
      }
      return None;
    }

    method WriteChannels(input: VReg, first: nat, numChannels: nat, overwritten: Cells) returns (m: Cells)
      modifies this
      ensures m == Inserted(overwritten, SubRegs(first, numChannels, old(next)))
      ensures code == old(code) + ChannelCopies(input, numChannels, old(next))
      ensures next == old(next) + numChannels && SizesGrown(old(sizes), sizes, old(next), next)
    {
      hide Inserted, SubRegs;
      m := overwritten;
      InsertNone(overwritten, first, next);
      for i := 0 to numChannels
        invariant next == old(next) + i && code == old(code) + ChannelCopies(input, i, old(next))
        invariant m == Inserted(overwritten, SubRegs(first, i, old(next)))
        invariant SizesGrown(old(sizes), sizes, old(next), next)
      {
        var sub := BuildVirtReg(2);
        Emit(Copy(sub, input, Some(Channel(i))));
        InsertStep(overwritten, first, i, old(next));
        if first + i !in m {
          m := m[first + i := sub];
        }
      }
    }

    /** Returns the registers to be overwritten, `overwritten` being those so far. */
    method WriteRegMIRProcessor(args: seq<Arg>, dest: PhysReg, acc: Cells, overwritten: Cells)
      returns (r: Result<Cells, Error>)
      requires dest.Valid() && (forall c | dest.Touches(c) :: c in acc) && forall i | 0 <= i < |args| ::
                args[i].reg in sizes
      modifies this
      ensures |args| != 1 ==> r == Err(WrongNumberOfArgs)
      ensures |args| == 1 && args[0].kind != RegUse ==> r == Err(NotAUse)
      ensures |args| == 1 && args[0].kind == RegUse && old(sizes)[args[0].reg] != dest.Size() ==> r == Err(SizeMismatch)
      ensures |args| == 1 && args[0].kind == RegUse && old(sizes)[args[0].reg] == dest.Size() ==>
                r == Ok(Inserted(overwritten, WriteMap(args[0].reg, dest, old(next)))) &&
                    code == old(code) + WriteCode(args[0].reg, dest, acc, old(next))
      ensures r.Err? ==> code == old(code) && next == old(next) && sizes == old(sizes)
      ensures r.Ok? ==> SizesGrown(old(sizes), sizes, old(next), next)
      ensures r.Ok? ==> next == old(next) + match dest
                                            case Wide(_, n) => if n > 1 then n else 0
                                            case Half(_, _) => 1
    {
      if |args| != 1 {
        return Err(WrongNumberOfArgs);
      }
      if args[0].kind != RegUse {
        return Err(NotAUse);
      }
      var input := args[0].reg;
      if sizes[input] != dest.Size() {
        return Err(SizeMismatch);
      }
      var m := overwritten;
      if dest.Size() > 2 {
        m := WriteChannels(input, dest.first, dest.Size() / 2, m);
      } else if dest.Size() == 2 {
        if dest.first !in m {
          m := m[dest.first := input];
        }
      } else {
        assert dest.Touches(dest.cell);
        var super := BuildVirtReg(2);
        Emit(InsertSubreg(super, acc[dest.cell], input, dest.high));
        if dest.cell !in m {
          m := m[dest.cell := super];
        }
      }
      assert m == Inserted(overwritten, WriteMap(input, dest, old(next)));
      return Ok(m);
    }
  }

  // ---- what the lowered intrinsics mean

  /** The contents of a half, found through the registers that hold the cells. */
  function HalfAt(env: Env, acc: Cells, p: nat): nat {
    if p / 2 in acc && |Get(env, acc[p / 2])| == 2 then Get(env, acc[p / 2])[p % 2] else 0
  }

  /** The cells of the register are held, as 32-bit values, by registers below `next`. */
  ghost predicate Held(env: Env, acc: Cells, reg: PhysReg, next: VReg) {
    (forall c | reg.Touches(c) :: c in acc) && forall c: nat | reg.Touches(c) :: HeldCell(env, acc, c, next)
  }

  ghost predicate HeldCell(env: Env, acc: Cells, c: nat, next: VReg) {
    c in acc && acc[c] < next && |Get(env, acc[c])| == 2
  }

  lemma TouchedHalf(reg: PhysReg, k: nat)
    requires k < reg.Size()
    ensures reg.Touches((reg.Start() + k) / 2)
  {
  }

  lemma HeldAt(env: Env, acc: Cells, reg: PhysReg, next: VReg, k: nat)
    requires Held(env, acc, reg, next) && k < reg.Size()
    ensures HeldCell(env, acc, (reg.Start() + k) / 2, next) && forall c | reg.Touches(c) :: c in acc
  {
    TouchedHalf(reg, k);
  }

  /** Placing a channel changes that channel only. */
  lemma PlacedChannel(v: Value, i: nat, x: Value, j: nat)
    requires 2 * i + 2 <= |v| && 2 * j + 2 <= |v| && |x| == 2
    ensures |Place(v, i, x)| == |v| &&
              Extract(Place(v, i, x), Channel(j)) == if j == i then x else Extract(v, Channel(j))
  {
  }

  /** The channels of a value assembled from registers are those registers. */
  lemma {:induction false} AssembledChannels(env: Env, acc: Cells, first: nat, n: nat, total: nat, next: VReg, j: nat)
    requires n <= total && (forall c | first <= c < first + n :: c in acc) && forall c: nat | first <= c < first + n ::
              HeldCell(env, acc, c, next)
    requires j < n
    ensures var v := Assemble(env, ChannelSources(acc, first, n), Zeros(2 * total));
            |v| == 2 * total && first + j in acc && Extract(v, Channel(j)) == Get(env, acc[first + j])
    decreases n
  {
    var srcs := ChannelSources(acc, first, n);
    var before := Assemble(env, srcs[..n - 1], Zeros(2 * total));
    assert srcs[..n - 1] == ChannelSources(acc, first, n - 1);
    assert HeldCell(env, acc, first + n - 1, next);
    AssembledSize(env, srcs[..n - 1], Zeros(2 * total));
    PlacedChannel(before, n - 1, Get(env, acc[first + n - 1]), j);
    if j < n - 1 {
      AssembledChannels(env, acc, first, n - 1, total, next, j);
    }
  }

  lemma {:induction false} AssembledSize(env: Env, srcs: seq<(VReg, nat)>, v: Value)
    ensures |Assemble(env, srcs, v)| == |v|
    decreases |srcs|
  {
    if srcs != [] {
      AssembledSize(env, srcs[..|srcs| - 1], v);
    }
  }

  lemma RunOne(env: Env, i: Instr)
    ensures Run(env, [i]) == Step(env, i)
  {
    assert [i][..0] == [];
  }

  lemma RunTwo(env: Env, i: Instr, j: Instr)
    ensures Run(env, [i, j]) == Step(Step(env, i), j)
  {
    assert [i, j][..1] == [i];
    RunOne(env, i);
  }

  /** A half is in the channel of half its place. */
  lemma HalfOfChannel(v: Value, k: nat)
    requires k < |v| && |v| % 2 == 0
    ensures |Extract(v, Channel(k / 2))| == 2 && v[k] == Extract(v, Channel(k / 2))[k % 2]
  {
  }

  /** The value the lowered read gives its output. */
  function ReadResult(env: Env, out: VReg, src: PhysReg, acc: Cells, next: VReg): Value
    requires src.Valid() && forall c | src.Touches(c) :: c in acc
  {
    Get(Run(env, ReadCode(out, src, acc, next)), out)
  }

  /** The lowered read puts the halves of the register into the output, in order. */
  lemma ReadMeaning(env: Env, out: VReg, src: PhysReg, acc: Cells, next: VReg, bound: VReg, k: nat)
    requires src.Valid() && Held(env, acc, src, bound) && k < src.Size()
    ensures var v := ReadResult(env, out, src, acc, next);
            |v| == src.Size() && HeldCell(env, acc, (src.Start() + k) / 2, bound) &&
                v[k] == HalfAt(env, acc, src.Start() + k)
  {
    TouchedHalf(src, k);
    assert HeldCell(env, acc, (src.Start() + k) / 2, bound);
    match src {
      case Wide(f, n) =>
        if n > 1 {
          ReadWide(env, out, f, n, acc, next, bound, k);
        } else {
          assert src.Touches(f);
          RunOne(env, Copy(out, acc[f], None));
        }
      case Half(c, high) =>
        assert src.Touches(c);
        RunOne(env, Copy(out, acc[c], Some(Part(high))));
    }
  }

  lemma ReadWide(env: Env, out: VReg, f: nat, n: nat, acc: Cells, next: VReg, bound: VReg, k: nat)
    requires n > 1 && Held(env, acc, Wide(f, n), bound) && k < 2 * n
    ensures var v := ReadResult(env, out, Wide(f, n), acc, next);
            |v| == 2 * n && f + k / 2 in acc && |Get(env, acc[f + k / 2])| == 2 &&
                v[k] == Get(env, acc[f + k / 2])[k % 2]
  {
    hide Assemble, Extract, Place, ChannelSources;
    var src := Wide(f, n);
    assert forall c | f <= c < f + n :: src.Touches(c);
    assert HeldCell(env, acc, f + k / 2, bound);
    var v := Assemble(env, ChannelSources(acc, f, n), Zeros(2 * n));
    AssembledChannels(env, acc, f, n, n, bound, k / 2);
    HalfOfChannel(v, k);
    RunTwo(env, RegSequence(next, ChannelSources(acc, f, n)), Copy(out, next, None));
  }

  /** The copies leave older registers alone. */
  lemma {:induction false} CopiesKeep(env: Env, input: VReg, n: nat, next: VReg, r: VReg)
    requires r < next
    ensures Get(Run(env, ChannelCopies(input, n, next)), r) == Get(env, r)
    decreases n
  {
    if n > 0 {
      CopiesKeep(env, input, n - 1, next, r);
      assert ChannelCopies(input, n, next)[..n - 1] == ChannelCopies(input, n - 1, next);
    }
  }

  /** The copies split the input into its channels. */
  lemma {:induction false} CopiedChannel(env: Env, input: VReg, n: nat, next: VReg, i: nat)
    requires input < next && i < n
    ensures Get(Run(env, ChannelCopies(input, n, next)), next + i) == Extract(Get(env, input), Channel(i))
    decreases n
  {
    hide Extract;
    assert ChannelCopies(input, n, next)[..n - 1] == ChannelCopies(input, n - 1, next);
    if i == n - 1 {
      CopiesKeep(env, input, n - 1, next, input);
    } else {
      CopiedChannel(env, input, n - 1, next, i);
    }
  }

  /** Registers the lowered write has made, so that the next new one comes after. */
  function Made(dest: PhysReg): nat {
    match dest
    case Wide(_, n) => if n > 1 then n else 0
    case Half(_, _) => 1
  }

  function AfterWrite(env: Env, input: VReg, dest: PhysReg, acc: Cells, next: VReg): Env
    requires forall c | dest.Touches(c) :: c in acc
  {
    Run(env, WriteCode(input, dest, acc, next))
  }

  predicate Covers(dest: PhysReg, p: nat) {
    dest.Start() <= p < dest.Start() + dest.Size()
  }

  /** What a half of any cell is after the write: the half of the input at the same
      place of the destination, or what it was. */
  function Written(env: Env, input: VReg, dest: PhysReg, acc: Cells, p: nat): nat {
    if Covers(dest, p) && p - dest.Start() < |Get(env, input)| then Get(env, input)[p - dest.Start()]
        else HalfAt(env, acc, p)
  }

  /** After the lowered write, registers as old as before are unchanged. */
  lemma OlderKept(env: Env, input: VReg, dest: PhysReg, acc: Cells, next: VReg, r: VReg)
    requires (forall c | dest.Touches(c) :: c in acc) && input < next && r < next
    ensures Get(AfterWrite(env, input, dest, acc, next), r) == Get(env, r)
  {
    match dest {
      case Wide(f, n) =>
        if n > 1 {
          CopiesKeep(env, input, n, next, r);
        }
      case Half(c, high) =>
        assert dest.Touches(c);
        RunOne(env, InsertSubreg(next, acc[c], input, high));
    }
  }

  lemma WriteMeaning(env: Env, input: VReg, dest: PhysReg, acc: Cells, next: VReg, p: nat)
    requires dest.Valid() && Held(env, acc, dest, next) && HeldCell(env, acc, p / 2, next)
    requires input < next && |Get(env, input)| == dest.Size()
    ensures var e := AfterWrite(env, input, dest, acc, next);
            && HeldCell(e, acc + WriteMap(input, dest, next), p / 2, next + Made(dest))
            && HalfAt(e, acc + WriteMap(input, dest, next), p) == Written(env, input, dest, acc, p)
  {
    hide Extract, Run, ChannelCopies;
    OlderKept(env, input, dest, acc, next, acc[p / 2]);
    if dest.Touches(p / 2) {
      match dest {
        case Wide(f, n) =>
          if n > 1 {
            WriteWideMeaning(env, input, f, n, acc, next, p);
          } else {
            OlderKept(env, input, dest, acc, next, input);
          }
        case Half(c, high) =>
          assert HeldCell(env, acc, c, next);
          RunOne(env, InsertSubreg(next, acc[c], input, high));
      }
    }
  }

  lemma WriteWideMeaning(env: Env, input: VReg, f: nat, n: nat, acc: Cells, next: VReg, p: nat)
    requires n > 1 && f <= p / 2 < f + n && input < next && |Get(env, input)| == 2 * n
    ensures var e := Run(env, ChannelCopies(input, n, next));
            |Get(e, next + (p / 2 - f))| == 2 && Get(e, next + (p / 2 - f))[p % 2] == Get(env, input)[p - 2 * f]
  {
    hide Extract, Run, ChannelCopies;
    CopiedChannel(env, input, n, next, p / 2 - f);
    HalfOfChannel(Get(env, input), p - 2 * f);
    assert (p - 2 * f) / 2 == p / 2 - f && (p - 2 * f) % 2 == p % 2;
  }

  lemma HeldAfterWrite(env: Env, input: VReg, dest: PhysReg, src: PhysReg, acc: Cells, next: VReg)
    requires dest.Valid() && Held(env, acc, dest, next) && Held(env, acc, src, next)
    requires input < next && |Get(env, input)| == dest.Size()
    ensures Held(AfterWrite(env, input, dest, acc, next), acc + WriteMap(input, dest, next), src, next + Made(dest))
  {
    hide Run, WriteMap, HalfAt, AfterWrite, Get;
    var e, a := AfterWrite(env, input, dest, acc, next), acc + WriteMap(input, dest, next);
    forall c: nat | src.Touches(c) ensures HeldCell(e, a, c, next + Made(dest)) {
      assert HeldCell(env, acc, c, next) && (2 * c) / 2 == c;
      WriteMeaning(env, input, dest, acc, next, 2 * c);
    }
  }

  /** Reading any register after a write gives the matching halves of what was
      written, and what was there before for all others. */
  lemma ReadAfterWrite(env: Env, input: VReg, dest: PhysReg, src: PhysReg, out: VReg, acc: Cells, next: VReg, k: nat)
    requires dest.Valid() && src.Valid() && Held(env, acc, dest, next) && Held(env, acc, src, next)
    requires input < next && |Get(env, input)| == dest.Size() && k < src.Size()
    ensures forall c | src.Touches(c) :: c in acc + WriteMap(input, dest, next)
    ensures var v := ReadResult(AfterWrite(env, input, dest, acc, next), out, src, acc +
                                WriteMap(input, dest, next), next + Made(dest));
            |v| == src.Size() && v[k] == Written(env, input, dest, acc, src.Start() + k)
  {
    hide ReadCode, Run, WriteMap, HalfAt, AfterWrite, ReadResult, Get, Held, PhysReg.Touches, PhysReg.Start, Written;
    HeldAt(env, acc, src, next, k);
    HeldAt(env, acc, dest, next, 0);
    var e, a := AfterWrite(env, input, dest, acc, next), acc + WriteMap(input, dest, next);
    HeldAfterWrite(env, input, dest, src, acc, next);
    HeldAt(e, a, src, next + Made(dest), k);
    WriteMeaning(env, input, dest, acc, next, src.Start() + k);
    ReadMeaning(e, out, src, a, next + Made(dest), next + Made(dest), k);
  }

  /** Reading the register that was written gives the value written. */
  lemma RoundTrip(env: Env, input: VReg, dest: PhysReg, out: VReg, acc: Cells, next: VReg)
    requires dest.Valid() && Held(env, acc, dest, next) && input < next && |Get(env, input)| == dest.Size()
    ensures forall c | dest.Touches(c) :: c in acc + WriteMap(input, dest, next)
    ensures ReadResult(AfterWrite(env, input, dest, acc, next), out, dest, acc + WriteMap(input, dest, next), next +
                       Made(dest)) == Get(env, input)
  {
    hide ReadResult, AfterWrite;
    ReadAfterWrite(env, input, dest, dest, out, acc, next, 0);
    forall k | 0 <= k < dest.Size()
      ensures ReadResult(AfterWrite(env, input, dest, acc, next), out, dest, acc + WriteMap(input, dest, next), next +
                         Made(dest))[k] == Get(env, input)[k]
    {
      ReadAfterWrite(env, input, dest, dest, out, acc, next, k);
    }
  }

  // ---- registers overwritten before

  ghost predicate HalfAgrees(env: Env, input: VReg, dest: PhysReg, earlier: Cells, k: nat)
    requires k < |Get(env, input)|
  {
    (dest.Start() + k) / 2 in earlier ==> HalfAt(env, earlier, dest.Start() + k) == Get(env, input)[k]
  }

  /** Each half of the destination that an earlier entry holds is the one written. */
  ghost predicate EarlierAgree(env: Env, input: VReg, dest: PhysReg, earlier: Cells)
    requires |Get(env, input)| == dest.Size()
  {
    forall k: nat | k < dest.Size() :: HalfAgrees(env, input, dest, earlier, k)
  }

  /** With earlier entries in the map, which insertion does not replace, reading back
      gives the value written exactly when those entries hold it already. */
  lemma RoundTripIff(env: Env, input: VReg, dest: PhysReg, out: VReg, acc: Cells, earlier: Cells, next: VReg)
    requires dest.Valid() && Held(env, acc, dest, next) && input < next && |Get(env, input)| == dest.Size()
    requires forall c: nat | c in earlier :: HeldCell(env, earlier, c, next)
    ensures forall c | dest.Touches(c) :: c in acc + Inserted(earlier, WriteMap(input, dest, next))
    ensures ReadResult(AfterWrite(env, input, dest, acc, next), out, dest, acc +
                       Inserted(earlier, WriteMap(input, dest, next)), next + Made(dest)) == Get(env, input)
       <==> EarlierAgree(env, input, dest, earlier)
  {
    hide ReadResult, AfterWrite, ReadCode, Run, WriteMap, Inserted, HalfAt, Held, HeldCell, PhysReg.Touches,
         PhysReg.Start, Get;
    HeldAt(env, acc, dest, next, 0);
    var e, a := AfterWrite(env, input, dest, acc, next), acc + Inserted(earlier, WriteMap(input, dest, next));
    HeldWithEarlier(env, input, dest, acc, earlier, next);
    HeldAt(e, a, dest, next + Made(dest), 0);
    ReadBackHalf(env, input, dest, out, acc, earlier, next, 0);
    var v := ReadResult(e, out, dest, a, next + Made(dest));
    forall k: nat | k < dest.Size() ensures v[k] == Get(env, input)[k] <==> HalfAgrees(env, input, dest, earlier, k) {
      ReadBackHalf(env, input, dest, out, acc, earlier, next, k);
    }
  }

  lemma HeldWithEarlier(env: Env, input: VReg, dest: PhysReg, acc: Cells, earlier: Cells, next: VReg)
    requires dest.Valid() && Held(env, acc, dest, next) && input < next && |Get(env, input)| == dest.Size()
    requires forall c: nat | c in earlier :: HeldCell(env, earlier, c, next)
    ensures Held(AfterWrite(env, input, dest, acc, next), acc +
                 Inserted(earlier, WriteMap(input, dest, next)), dest, next + Made(dest))
  {
    hide AfterWrite, WriteMap, Run, Get;
    var e, m := AfterWrite(env, input, dest, acc, next), WriteMap(input, dest, next);
    var a := acc + Inserted(earlier, m);
    forall c: nat | dest.Touches(c) ensures c in a && HeldCell(e, a, c, next + Made(dest)) {
      assert HeldCell(env, acc, c, next);
      assert (2 * c) / 2 == c;
      WriteMeaning(env, input, dest, acc, next, 2 * c);
      if c in earlier {
        assert HeldCell(env, earlier, c, next);
        OlderKept(env, input, dest, acc, next, earlier[c]);
      }
    }
  }

  lemma ReadBackHalf(env: Env, input: VReg, dest: PhysReg, out: VReg, acc: Cells, earlier: Cells, next: VReg, k: nat)
    requires dest.Valid() && Held(env, acc, dest, next) && input < next && |Get(env, input)| == dest.Size() &&
              k < dest.Size()
    requires forall c: nat | c in earlier :: HeldCell(env, earlier, c, next)
    requires Held(AfterWrite(env, input, dest, acc, next), acc +
                  Inserted(earlier, WriteMap(input, dest, next)), dest, next + Made(dest))
    ensures var v := ReadResult(AfterWrite(env, input, dest, acc, next), out, dest, acc +
                                Inserted(earlier, WriteMap(input, dest, next)), next + Made(dest));
            && |v| == dest.Size()
            && v[k] == if (dest.Start() + k) / 2 in earlier then HalfAt(env, earlier, dest.Start() + k)
                else Get(env, input)[k]
  {
    hide ReadResult, AfterWrite, ReadCode, Run, WriteMap, Held;
    HeldAt(env, acc, dest, next, k);
    var e, m := AfterWrite(env, input, dest, acc, next), WriteMap(input, dest, next);
    var p := dest.Start() + k;
    WriteMeaning(env, input, dest, acc, next, p);
    ReadMeaning(e, out, dest, acc + Inserted(earlier, m), next + Made(dest), next + Made(dest), k);
    if p / 2 in earlier {
      assert HeldCell(env, earlier, p / 2, next);
      OlderKept(env, input, dest, acc, next, earlier[p / 2]);
    }
  }
}
