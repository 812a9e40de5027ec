/** What a machine function does when run, and that its clone does the same. */
module CloneMeaning {
  import opened Wrappers
  import opened MachineIR
  import opened Cloning

  /** An operand as the hardware sees it: blocks by their place in the function,
      masks by content, globals by address. */
  datatype Resolved =
    | Register(reg: nat, isDef: bool, subReg: nat)
    | Immediate(imm: int)
    | Target(index: nat)
    | Preserved(bits: seq<nat>)
    | Address(address: int, targetFlags: nat)
    | Other(kind: nat, payload: int)

  /** What a memory operand is about: the code a global is called at, or another
      pseudo source as it is. */
  datatype Source = CallEntry(address: int) | Plain(pseudo: PseudoSource)

  datatype MemAccess = MemAccess(source: Option<Source>, access: nat)

  datatype Code = Code(opcode: nat, flags: nat, operands: seq<Resolved>, memRefs: seq<MemAccess>)

  function IndexOf(blocks: seq<MachineBasicBlock>, b: MachineBasicBlock): (i: nat)
    ensures b in blocks ==> i < |blocks| && blocks[i] == b
  {
    if blocks == [] then 0 else if blocks[0] == b then 0 else 1 + IndexOf(blocks[1..], b)
  }

  function Resolve(o: Operand, blocks: seq<MachineBasicBlock>, addr: GlobalValue -> int): Resolved {
    match o
    case RegisterOp(reg, isDef, subReg) => Register(reg, isDef, subReg)
    case ImmOp(imm) => Immediate(imm)
    case BlockOp(b) => Target(IndexOf(blocks, b))
    case RegMaskOp(mask) => Preserved(mask.bits)
    case GlobalOp(gv, offset, flags) => Address(addr(gv) + offset, flags)
    case OtherOp(kind, payload) => Other(kind, payload)
  }

  ghost function ResolveAll(os: seq<Operand>, blocks: seq<MachineBasicBlock>,
                            addr: GlobalValue -> int): (rs: seq<Resolved>)
    ensures |rs| == |os| && forall k | 0 <= k < |os| :: rs[k] == Resolve(os[k], blocks, addr)
  {
    if os == [] then [] else ResolveAll(os[..|os| - 1], blocks, addr) + [Resolve(os[|os| - 1], blocks, addr)]
  }

  function ResolveMem(o: MemOperand, addr: GlobalValue -> int): MemAccess {
    match o.pseudo
    case None => MemAccess(None, o.access)
    case Some(GlobalValueCallEntry(gv)) => MemAccess(Some(CallEntry(addr(gv))), o.access)
    case Some(p) => MemAccess(Some(Plain(p)), o.access)
  }

  ghost function ResolveMems(os: seq<MemOperand>, addr: GlobalValue -> int): (rs: seq<MemAccess>)
    ensures |rs| == |os| && forall k | 0 <= k < |os| :: rs[k] == ResolveMem(os[k], addr)
  {
    if os == [] then [] else ResolveMems(os[..|os| - 1], addr) + [ResolveMem(os[|os| - 1], addr)]
  }

  ghost function CodeOf(i: MachineInstr, blocks: seq<MachineBasicBlock>, addr: GlobalValue -> int): Code
    reads i
  {
    Code(i.opcode, i.flags, ResolveAll(i.operands, blocks, addr), ResolveMems(i.memRefs, addr))
  }

  ghost function BlockCode(instrs: seq<MachineInstr>, blocks: seq<MachineBasicBlock>,
                           addr: GlobalValue -> int): (c: seq<Code>)
    reads instrs
    ensures |c| == |instrs| && forall k | 0 <= k < |instrs| :: c[k] == CodeOf(instrs[k], blocks, addr)
  {
    if instrs == [] then []
    else BlockCode(instrs[..|instrs| - 1], blocks, addr) + [CodeOf(instrs[|instrs| - 1], blocks, addr)]
  }

  /** The code of the first `n` blocks. */
  ghost function ProgramUpTo(blocks: seq<MachineBasicBlock>, n: nat, addr: GlobalValue -> int): (p: seq<seq<Code>>)
    requires n <= |blocks|
    reads blocks, InstrSet(blocks)
    ensures |p| == n && forall b | 0 <= b < n :: p[b] == BlockCode(blocks[b].instrs, blocks, addr)
  {
    if n == 0 then [] else
      assert forall i | i in blocks[n - 1].instrs :: i in InstrSet(blocks);
      ProgramUpTo(blocks, n - 1, addr) + [BlockCode(blocks[n - 1].instrs, blocks, addr)]
  }

  ghost function Program(blocks: seq<MachineBasicBlock>, addr: GlobalValue -> int): seq<seq<Code>>
    reads blocks, InstrSet(blocks)
  {
    ProgramUpTo(blocks, |blocks|, addr)
  }

  /** All a function is when run: its code, its frame objects, its jump tables with blocks
      by their places, and its constants. */
  datatype Image = Image(program: seq<seq<Code>>, objects: seq<StackObject>, numFixedObjects: nat,
                         registers: seq<(nat, Option<nat>)>, jumpTables: seq<seq<nat>>, constants: seq<nat>)

  /** The class and the type of each virtual register. */
  ghost function Classes(regs: seq<VirtReg>): seq<(nat, Option<nat>)> {
    seq(|regs|, i requires 0 <= i < |regs| => (regs[i].regClass, regs[i].ty))
  }

  ghost function Places(table: seq<MachineBasicBlock>, blocks: seq<MachineBasicBlock>): seq<nat> {
    seq(|table|, k requires 0 <= k < |table| => IndexOf(blocks, table[k]))
  }

  ghost function JumpTables(tables: seq<seq<MachineBasicBlock>>, blocks: seq<MachineBasicBlock>): (r: seq<seq<nat>>)
    ensures |r| == |tables|
  {
    seq(|tables|, k requires 0 <= k < |tables| => Places(tables[k], blocks))
  }

  ghost function ImageOf(mf: MachineFunction, addr: GlobalValue -> int): Image
    reads mf, mf.frameInfo, mf.blocks, InstrSet(mf.blocks)
  {
    Image(Program(mf.blocks, addr), mf.frameInfo.objects, mf.frameInfo.numFixedObjects, Classes(mf.virtRegs),
          JumpTables(mf.tables.jumpTables, mf.blocks), mf.tables.constants)
  }

  datatype Next = FallThrough | Goto(block: nat) | Stop

  datatype Config<S> = At(block: nat, idx: nat, state: S) | Done(state: S)

  /** One step under a meaning `sem` of single instructions in a function. */
  function Step<S>(image: Image, sem: (Code, Image, S) -> (S, Next), c: Config<S>): Config<S> {
    var p := image.program;
    if c.Done? then c
    else if c.block >= |p| then Done(c.state)
    else if c.idx >= |p[c.block]| then At(c.block + 1, 0, c.state)
    else
      var (s, next) := sem(p[c.block][c.idx], image, c.state);
      match next
      case FallThrough => At(c.block, c.idx + 1, s)
      case Goto(b) => At(b, 0, s)
      case Stop => Done(s)
  }

  function Run<S>(image: Image, sem: (Code, Image, S) -> (S, Next), c: Config<S>, n: nat): Config<S>
    decreases n
  {
    if n == 0 then c else Run(image, sem, Step(image, sem, c), n - 1)
  }

  /** The address map of the clone agrees with that of the source. */
  ghost predicate Agrees(values: map<GlobalValue, GlobalValue>, addr: GlobalValue -> int, addr': GlobalValue -> int) {
    forall g | g in values :: addr'(values[g]) == addr(g)
  }

  lemma {:induction false} IndexOfNth(blocks: seq<MachineBasicBlock>, i: nat)
    requires i < |blocks| && BlocksListedOnce(blocks)
    ensures IndexOf(blocks, blocks[i]) == i
  {
    if i > 0 {
      IndexOfNth(blocks[1..], i - 1);
    }
  }

  lemma SameOperand(o: Operand, d: Operand, ss: seq<MachineBasicBlock>, ds: seq<MachineBasicBlock>, m: Maps,
                    addr: GlobalValue -> int, addr': GlobalValue -> int)
    requires OperandImage(o, d, m) && Paired(ss, ds, m.blocks) && Agrees(m.values, addr, addr')
    requires BlocksListedOnce(ss)
    ensures Resolve(d, ds, addr') == Resolve(o, ss, addr)
  {
    if o.BlockOp? {
      var i := IndexOf(ss, o.mbb);
      assert ss[i] == o.mbb && ds[i] == d.mbb;
      IndexOfNth(ds, i);
    }
  }

  /** The call entry is at the address of its global for the clone too. */
  predicate EntryKept(o: MemOperand, addr: GlobalValue -> int, addr': GlobalValue -> int) {
    o.pseudo.Some? && o.pseudo.value.GlobalValueCallEntry? ==> addr'(o.pseudo.value.gv) == addr(o.pseudo.value.gv)
  }

  ghost predicate EntriesKept(i: MachineInstr, addr: GlobalValue -> int, addr': GlobalValue -> int)
    reads i
  {
    forall k | 0 <= k < |i.memRefs| :: EntryKept(i.memRefs[k], addr, addr')
  }

  /** Memory operands keep the globals of the source, which are not mapped. */
  ghost predicate CallEntriesKept(ss: seq<MachineBasicBlock>, addr: GlobalValue -> int, addr': GlobalValue -> int)
    reads ss, InstrSet(ss)
  {
    forall b, k | 0 <= b < |ss| && 0 <= k < |ss[b].instrs| :: EntriesKept(ss[b].instrs[k], addr, addr')
  }

  lemma SameMems(os: seq<MemOperand>, addr: GlobalValue -> int, addr': GlobalValue -> int)
    ensures ResolveMems(os, addr') == ResolveMems(os, addr) <==>
              forall k | 0 <= k < |os| :: EntryKept(os[k], addr, addr')
  {
    var rs, rs' := ResolveMems(os, addr), ResolveMems(os, addr');
    forall k | 0 <= k < |os| ensures rs'[k] == rs[k] <==> EntryKept(os[k], addr, addr') {
    }
  }

  lemma SameCodeIff(s: MachineInstr, d: MachineInstr, ss: seq<MachineBasicBlock>, ds: seq<MachineBasicBlock>, m: Maps,
                    addr: GlobalValue -> int, addr': GlobalValue -> int)
    requires InstrImage(s, d, m) && Paired(ss, ds, m.blocks) && Agrees(m.values, addr, addr')
    requires BlocksListedOnce(ss)
    ensures CodeOf(d, ds, addr') == CodeOf(s, ss, addr) <==> EntriesKept(s, addr, addr')
  {
    forall k | 0 <= k < |s.operands| ensures Resolve(d.operands[k], ds, addr') == Resolve(s.operands[k], ss, addr) {
      SameOperand(s.operands[k], d.operands[k], ss, ds, m, addr, addr');
    }
    assert ResolveAll(d.operands, ds, addr') == ResolveAll(s.operands, ss, addr);
    SameMems(s.memRefs, addr, addr');
  }

  /** The clone has the code of the source, instruction for instruction, exactly when
      the call entries of memory operands are where they were. */
  lemma ClonePreservesProgram(ss: seq<MachineBasicBlock>, ds: seq<MachineBasicBlock>, m: Maps,
                              addr: GlobalValue -> int, addr': GlobalValue -> int)
    requires Paired(ss, ds, m.blocks) && InstrImages(ss, ds, m) && Agrees(m.values, addr, addr')
    requires BlocksListedOnce(ss)
    ensures Program(ds, addr') == Program(ss, addr) <==> CallEntriesKept(ss, addr, addr')
  {
    var p, p' := Program(ss, addr), Program(ds, addr');
    forall b | 0 <= b < |ss|
      ensures p'[b] == p[b] <==> forall k | 0 <= k < |ss[b].instrs| :: EntriesKept(ss[b].instrs[k], addr, addr')
    {
      assert InstrsImage(ss[b].instrs, ds[b].instrs, m);
      forall k | 0 <= k < |ss[b].instrs| ensures p'[b][k] == p[b][k] <==> EntriesKept(ss[b].instrs[k], addr, addr') {
        SameCodeIff(ss[b].instrs[k], ds[b].instrs[k], ss, ds, m, addr, addr');
      }
    }
  }

  /** The frame objects are such as cloning makes again. */
  ghost predicate FrameCreatable(f: MachineFrameInfo, fixedAlign: int -> nat)
    reads f
  {
    forall fi | f.HasIndex(fi) :: Creatable(f.Object(fi), fixedAlign, fi < 0)
  }

  lemma SameFrameIff(s: MachineFrameInfo, d: MachineFrameInfo, fixedAlign: int -> nat)
    requires s.Valid() && FrameImage(s, d, fixedAlign)
    ensures d.objects == s.objects <==> FrameCreatable(s, fixedAlign)
  {
    forall fi | s.HasIndex(fi) ensures d.Object(fi) == s.Object(fi) <==> Creatable(s.Object(fi), fixedAlign, fi < 0) {
      RecreatedIffCreatable(s.Object(fi), fixedAlign, fi < 0);
    }
    if FrameCreatable(s, fixedAlign) {
      forall k | 0 <= k < |s.objects| ensures d.objects[k] == s.objects[k] {
        var fi := k - s.numFixedObjects;
        assert s.HasIndex(fi) && d.Object(fi) == s.Object(fi);
      }
    }
    if d.objects == s.objects {
      forall fi | s.HasIndex(fi) ensures Creatable(s.Object(fi), fixedAlign, fi < 0) {
        assert d.Object(fi) == s.Object(fi);
      }
    }
  }

  /** Virtual registers keep their numbers and all but the type of their hints. */
  lemma VirtRegsKept(src: MachineFunction, dst: MachineFunction, m: Maps, fixedAlign: int -> nat)
    requires ShellImage(src, dst, m, fixedAlign)
    ensures |dst.virtRegs| == |src.virtRegs|
    ensures forall i | 0 <= i < |src.virtRegs| ::
              && dst.virtRegs[i].name == src.virtRegs[i].name && dst.virtRegs[i].regClass == src.virtRegs[i].regClass
              && dst.virtRegs[i].ty == src.virtRegs[i].ty && dst.virtRegs[i].hints == src.virtRegs[i].hints
              && dst.virtRegs[i].hintType == 0
    ensures Classes(dst.virtRegs) == Classes(src.virtRegs)
    ensures dst.virtRegs == src.virtRegs <==> forall v | v in src.virtRegs :: v.hintType == 0
  {
    hide BlockShellsImage, FrameImage;
    if forall v | v in src.virtRegs :: v.hintType == 0 {
      forall i | 0 <= i < |src.virtRegs| ensures dst.virtRegs[i] == src.virtRegs[i] {
        assert VirtRegKept(src.virtRegs[i], dst.virtRegs[i]) && src.virtRegs[i] in src.virtRegs;
      }
    }
    forall v | dst.virtRegs == src.virtRegs && v in src.virtRegs ensures v.hintType == 0 {
      var i :| 0 <= i < |src.virtRegs| && src.virtRegs[i] == v;
      assert VirtRegKept(src.virtRegs[i], dst.virtRegs[i]);
    }
  }

  /** Blocks stand in the same places, with their attributes, live-ins and instructions,
      and lead to blocks in the same places with the same probabilities. */
  lemma PlacesCorrespond(src: MachineFunction, dst: MachineFunction, m: Maps, values: map<GlobalValue, GlobalValue>,
                         fixedAlign: int -> nat)
    requires Cloned(src, dst, m, values, fixedAlign)
    ensures |dst.blocks| == |src.blocks|
    ensures forall b | 0 <= b < |src.blocks| ::
              && dst.blocks[b].attrs == src.blocks[b].attrs && dst.blocks[b].liveIns == src.blocks[b].liveIns
              && |dst.blocks[b].successors| == |src.blocks[b].successors|
              && |dst.blocks[b].instrs| == |src.blocks[b].instrs|
    ensures forall b, k, j | 0 <= b < |src.blocks| && 0 <= k < |src.blocks[b].successors| && 0 <= j < |src.blocks| &&
                             src.blocks[b].successors[k].0 == src.blocks[j] ::
              dst.blocks[b].successors[k] == (dst.blocks[j], src.blocks[b].successors[k].1)
    ensures forall b, k | 0 <= b < |src.blocks| && 0 <= k < |src.blocks[b].instrs| ::
              SameShape(src.blocks[b].instrs[k], dst.blocks[b].instrs[k])
    ensures forall j | 0 <= j < |src.blocks| ::
              && (src.frameInfo.savePoint == src.blocks[j] ==> dst.frameInfo.savePoint == dst.blocks[j])
              && (src.frameInfo.restorePoint == src.blocks[j] ==> dst.frameInfo.restorePoint == dst.blocks[j])
  {
    hide VirtRegsImage, FrameImage, OperandImage;
    forall b, k | 0 <= b < |src.blocks| && 0 <= k < |src.blocks[b].instrs|
      ensures SameShape(src.blocks[b].instrs[k], dst.blocks[b].instrs[k])
    {
      assert InstrsImage(src.blocks[b].instrs, dst.blocks[b].instrs, m);
      assert InstrImage(src.blocks[b].instrs[k], dst.blocks[b].instrs[k], m);
    }
    assert forall b | 0 <= b < |src.blocks| :: EdgesImage(src.blocks[b].successors, dst.blocks[b].successors, m.blocks);
  }

  /** Operands name the block in the same place, the same mask bits, the mapped global at the
      same offset, and are the same otherwise; masks of the target are shared. */
  lemma OperandsCorrespond(src: MachineFunction, dst: MachineFunction, m: Maps, values: map<GlobalValue, GlobalValue>,
                           fixedAlign: int -> nat, b: nat, k: nat, o: nat)
    requires Cloned(src, dst, m, values, fixedAlign)
    requires b < |src.blocks| && k < |src.blocks[b].instrs| && o < |src.blocks[b].instrs[k].operands|
    ensures b < |dst.blocks| && k < |dst.blocks[b].instrs| && o < |dst.blocks[b].instrs[k].operands|
    ensures var x, y := src.blocks[b].instrs[k].operands[o], dst.blocks[b].instrs[k].operands[o];
            match x
            case BlockOp(mbb) => forall j | 0 <= j < |src.blocks| && src.blocks[j] == mbb :: y == BlockOp(dst.blocks[j])
            case RegMaskOp(mask) =>
              y.RegMaskOp? && y.mask.bits == mask.bits && (mask in m.constMasks ==> y.mask == mask)
            case GlobalOp(gv, offset, flags) => gv in values && y == GlobalOp(values[gv], offset, flags)
            case _ => y == x
  {
    hide VirtRegsImage, FrameImage;
    assert InstrsImage(src.blocks[b].instrs, dst.blocks[b].instrs, m);
    assert InstrImage(src.blocks[b].instrs[k], dst.blocks[b].instrs[k], m);
    assert OperandImage(src.blocks[b].instrs[k].operands[o], dst.blocks[b].instrs[k].operands[o], m);
  }

  /** What can be cloned: a mapped function in which every global an instruction names is
      mapped and no memory operand has a source of the target's own, without properties
      that are not copied, on a target that copies its own information. */
  lemma CloneableExact(src: MachineFunction, values: map<GlobalValue, GlobalValue>)
    ensures FunctionCloneable(src, values) <==>
              && src.function_ in values && !src.hasUncloneableProperty && src.targetInfoCloneable
              && (forall b, k, o | 0 <= b < |src.blocks| && 0 <= k < |src.blocks[b].instrs| &&
                                   0 <= o < |src.blocks[b].instrs[k].operands| &&
                                   src.blocks[b].instrs[k].operands[o].GlobalOp? ::
                    src.blocks[b].instrs[k].operands[o].gv in values)
              && (forall b, k, o | 0 <= b < |src.blocks| && 0 <= k < |src.blocks[b].instrs| &&
                                   0 <= o < |src.blocks[b].instrs[k].memRefs| &&
                                   src.blocks[b].instrs[k].memRefs[o].pseudo.Some? ::
                    !src.blocks[b].instrs[k].memRefs[o].pseudo.value.TargetCustom?)
  {
    var m := Maps(map[], values, {});
    if AllCloneable(src.blocks, values) {
      forall b, k | 0 <= b < |src.blocks| && 0 <= k < |src.blocks[b].instrs|
        ensures InstrCloneable(src.blocks[b].instrs[k], m)
      {
      }
    }
  }

  /** All of an instruction but what its operands stand for. */
  ghost predicate SameShape(s: MachineInstr, d: MachineInstr)
    reads s, d
  {
    && d.opcode == s.opcode && d.debugLoc == s.debugLoc && d.flags == s.flags
    && d.asmPrinterFlags == s.asmPrinterFlags && |d.operands| == |s.operands| && d.memRefs == s.memRefs
  }

  /** The clone is the source exactly when call entries are where they were, the frame
      objects can be made again, and there are no jump tables and no constants. */
  lemma CloneIsSameIff(src: MachineFunction, dst: MachineFunction, m: Maps, values: map<GlobalValue, GlobalValue>,
                       fixedAlign: int -> nat, addr: GlobalValue -> int, addr': GlobalValue -> int)
    requires src.Valid() && Cloned(src, dst, m, values, fixedAlign) && Agrees(values, addr, addr')
    ensures ImageOf(dst, addr') == ImageOf(src, addr) <==>
            && CallEntriesKept(src.blocks, addr, addr')
            && FrameCreatable(src.frameInfo, fixedAlign)
            && src.tables == Tables([], [])
  {
    hide CallEntriesKept, FrameCreatable, Program, MachineFrameInfo.Object, InstrImages, VirtRegsImage, AllInside,
         AllDistinct, Flat;
    VirtRegsKept(src, dst, m, fixedAlign);
    ClonePreservesProgram(src.blocks, dst.blocks, m, addr, addr');
    SameFrameIff(src.frameInfo, dst.frameInfo, fixedAlign);
  }

  /** Then running the clone is running the source, step for step, whatever single
      instructions mean. */
  lemma CloneRunsAlike<S>(src: MachineFunction, dst: MachineFunction, m: Maps, values: map<GlobalValue, GlobalValue>,
                          fixedAlign: int -> nat, addr: GlobalValue -> int, addr': GlobalValue -> int,
                          sem: (Code, Image, S) -> (S, Next), c: Config<S>, n: nat)
    requires src.Valid() && Cloned(src, dst, m, values, fixedAlign) && Agrees(values, addr, addr')
    requires CallEntriesKept(src.blocks, addr, addr') && FrameCreatable(src.frameInfo, fixedAlign)
    requires src.tables == Tables([], [])
    ensures Run(ImageOf(dst, addr'), sem, c, n) == Run(ImageOf(src, addr), sem, c, n)
  {
    hide Cloned, CallEntriesKept, FrameCreatable, Program;
    CloneIsSameIff(src, dst, m, values, fixedAlign, addr, addr');
  }

  /** The instruction map is one to one and covers exactly the instructions that
      have an operand, when it starts out empty. */
  lemma InstrMapExact(src: MachineFunction, dst: MachineFunction, m: Maps, miMap: InstrMap)
    requires src.Valid() && AllCopied(src.blocks, dst.blocks, m, map[], miMap)
    ensures forall k | k in miMap.m :: k in Flat(src.blocks) && miMap.m[k] in Flat(dst.blocks)
    ensures forall k | 0 <= k < |Flat(src.blocks)| :: Flat(src.blocks)[k] in miMap.m <==>
              Flat(src.blocks)[k].operands != []
    ensures forall k | 0 <= k < |Flat(src.blocks)| && Flat(src.blocks)[k] in miMap.m ::
              miMap.m[Flat(src.blocks)[k]] == Flat(dst.blocks)[k]
    ensures forall i, j | i in miMap.m && j in miMap.m && miMap.m[i] == miMap.m[j] :: i == j
  {
    var s, d := Flat(src.blocks), Flat(dst.blocks);
    RecordedExact(map[], s, d);
    forall i, j | i in miMap.m && j in miMap.m && miMap.m[i] == miMap.m[j] ensures i == j {
      var a :| 0 <= a < |s| && s[a] == i;
      var b :| 0 <= b < |s| && s[b] == j;
      assert d[a] == d[b];
    }
  }
}
