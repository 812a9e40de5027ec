/** Copying machine functions through a map of values. */
module Cloning {
  import opened Wrappers
  import opened MachineIR

  datatype Error = FunctionNotMapped | GlobalNotMapped | CustomPseudoSource | UnsupportedProperty | NoTargetInfo
                 | MissingFunction

  type MIMap = map<MachineInstr, MachineInstr>

  type BlockMap = map<MachineBasicBlock, MachineBasicBlock>

  // ---- frame objects

  /** What copying an object through the creation calls leaves of it. */
  function Recreated(o: StackObject, fixedAlign: int -> nat, isFixed: bool): StackObject {
    if isFixed then
      o.(align := fixedAlign(o.offset), isSpillSlot := false, stackID := 0, alloca := None)
    else if o.size == 0 then
      o.(offset := 0, isImmutable := false, isSpillSlot := false, stackID := 0, isAliased := true)
    else
      o.(isImmutable := false, isAliased := !o.isSpillSlot)
  }

  /** An object such as those calls make, possibly with its offset set. */
  predicate Creatable(o: StackObject, fixedAlign: int -> nat, isFixed: bool) {
    if isFixed then o.align == fixedAlign(o.offset) && !o.isSpillSlot && o.stackID == 0 && o.alloca == None
    else
      && !o.isImmutable
      && o.isAliased == !o.isSpillSlot
      && (o.size == 0 ==> o.offset == 0 && !o.isSpillSlot && o.stackID == 0)
  }

  /** Every index keeps its object, and the object all its attributes if and only
      if it is one the creation calls can make. */
  lemma RecreatedIffCreatable(o: StackObject, fixedAlign: int -> nat, isFixed: bool)
    ensures Recreated(o, fixedAlign, isFixed) == o <==> Creatable(o, fixedAlign, isFixed)
  {
  }

  /** What each attribute becomes. */
  lemma RecreatedAttrs(o: StackObject, fixedAlign: int -> nat, isFixed: bool)
    ensures var r := Recreated(o, fixedAlign, isFixed);
            && r.size == o.size && r.isStatepointSpillSlot == o.isStatepointSpillSlot
            && r.isZExt == o.isZExt && r.isSExt == o.isSExt && r.sspLayout == o.sspLayout
            && r.align == (if isFixed then fixedAlign(o.offset) else o.align)
            && r.offset == (if isFixed || o.size != 0 then o.offset else 0)
            && (r.isImmutable <==> isFixed && o.isImmutable)
            && (r.isSpillSlot <==> !isFixed && o.size != 0 && o.isSpillSlot)
            && r.stackID == (if !isFixed && o.size != 0 then o.stackID else 0)
            && r.alloca == (if isFixed then None else o.alloca)
            && (r.isAliased <==> if isFixed then o.isAliased else o.size == 0 || !o.isSpillSlot)
  {
  }

  ghost predicate FrameImage(src: MachineFrameInfo, dst: MachineFrameInfo, fixedAlign: int -> nat)
    reads src, dst
  {
    && dst.Valid() && |dst.objects| == |src.objects| && dst.numFixedObjects == src.numFixedObjects
    && forall fi | src.HasIndex(fi) :: dst.Object(fi) == Recreated(src.Object(fi), fixedAlign, fi < 0)
  }

  method CopyObjectProperties(dst: MachineFrameInfo, src: MachineFrameInfo, fi: int)
    requires dst.Valid() && dst.HasIndex(fi) && src.Valid() && src.HasIndex(fi) && src != dst
    modifies dst`objects
    ensures dst.objects == old(var s, d := src.Object(fi), dst.Object(fi);
                               var spill := d.isStatepointSpillSlot || s.isStatepointSpillSlot;
                               var d' := d.(isStatepointSpillSlot := spill, sspLayout := s.sspLayout,
                                            isZExt := s.isZExt, isSExt := s.isSExt);
                               dst.objects[fi + dst.numFixedObjects := d'])
  {
    if src.Object(fi).isStatepointSpillSlot {
      dst.SetObject(fi, dst.Object(fi).(isStatepointSpillSlot := true));
    }
    dst.SetObject(fi, dst.Object(fi).(sspLayout := src.Object(fi).sspLayout));
    dst.SetObject(fi, dst.Object(fi).(isZExt := src.Object(fi).isZExt));
    dst.SetObject(fi, dst.Object(fi).(isSExt := src.Object(fi).isSExt));
  }

  method CloneFrameInfo(dst: MachineFrameInfo, src: MachineFrameInfo, src2dst: BlockMap, fixedAlign: int -> nat)
    requires src.Valid() && src != dst && dst.objects == [] && dst.numFixedObjects == 0
    requires dst.savePoint == null && dst.restorePoint == null
    requires src.savePoint != null ==> src.savePoint in src2dst
    requires src.restorePoint != null ==> src.restorePoint in src2dst
    modifies dst
    ensures FrameImage(src, dst, fixedAlign)
    ensures dst.savePoint == if src.savePoint == null then null else src2dst[src.savePoint]
    ensures dst.restorePoint == if src.restorePoint == null then null else src2dst[src.restorePoint]
  {
    if src.savePoint != null {
      dst.savePoint := src2dst[src.savePoint];
    }
    if src.restorePoint != null {
      dst.restorePoint := src2dst[src.restorePoint];
    }
    CopyOrdinaryObjects(dst, src, fixedAlign);
    CopyFixedObjects(dst, src, fixedAlign);
  }

  ghost predicate CopiedFrom(src: MachineFrameInfo, fixedAlign: int -> nat, o: StackObject, fi: int)
    reads src
  {
    src.HasIndex(fi) && o == Recreated(src.Object(fi), fixedAlign, fi < 0)
  }

  method CopyOrdinaryObjects(dst: MachineFrameInfo, src: MachineFrameInfo, fixedAlign: int -> nat)
    requires src.Valid() && src != dst && dst.objects == [] && dst.numFixedObjects == 0
    modifies dst`objects
    ensures |dst.objects| == |src.objects| - src.numFixedObjects
    ensures forall k | 0 <= k < |dst.objects| :: CopiedFrom(src, fixedAlign, dst.objects[k], k)
  {
    var i, e: int := 0, |src.objects| - src.numFixedObjects;
    while i != e
      invariant 0 <= i <= e && |dst.objects| == i
      invariant forall k | 0 <= k < i :: CopiedFrom(src, fixedAlign, dst.objects[k], k)
      decreases e - i
    {
      var o := src.Object(i);
      var newFI: int;
      if o.size == 0 {
        newFI := dst.CreateVariableSizedObject(o.align, o.alloca);
      } else {
        newFI := dst.CreateStackObject(o.size, o.align, o.isSpillSlot, o.alloca, o.stackID);
        dst.SetObject(newFI, dst.Object(newFI).(offset := o.offset));
      }
      CopyObjectProperties(dst, src, i);
      assert newFI == i;
      i := i + 1;
    }
  }

  /** Goes backwards, since each object is inserted in front of the others. */
  method CopyFixedObjects(dst: MachineFrameInfo, src: MachineFrameInfo, fixedAlign: int -> nat)
    requires src.Valid() && src != dst && dst.numFixedObjects == 0 &&
              |dst.objects| == |src.objects| - src.numFixedObjects
    requires forall k | 0 <= k < |dst.objects| :: CopiedFrom(src, fixedAlign, dst.objects[k], k)
    modifies dst`objects, dst`numFixedObjects
    ensures FrameImage(src, dst, fixedAlign)
  {
    var i: int := -1;
    while i >= 0 - src.numFixedObjects
      invariant -1 - src.numFixedObjects <= i <= -1
      invariant dst.numFixedObjects == -1 - i &&
                |dst.objects| == |src.objects| - src.numFixedObjects + dst.numFixedObjects
      invariant forall k | 0 <= k < |dst.objects| :: CopiedFrom(src, fixedAlign, dst.objects[k], k + 1 + i)
      decreases i + src.numFixedObjects + 1
    {
      var o := src.Object(i);
      ghost var before := dst.objects;
      var newFI := dst.CreateFixedObject(o.size, o.offset, o.isImmutable, o.isAliased, fixedAlign(o.offset));
      CopyObjectProperties(dst, src, i);
      assert newFI == i;
      assert forall k | 1 <= k < |dst.objects| :: dst.objects[k] == before[k - 1];
      i := i - 1;
    }
    assert forall fi | src.HasIndex(fi) :: CopiedFrom(src, fixedAlign, dst.objects[fi + dst.numFixedObjects], fi);
  }

  // ---- what a copy of an operand, an instruction, a block is

  /** The maps a copy goes through: blocks, values, and the register masks of the
      target, which all functions share. */
  datatype Maps = Maps(blocks: BlockMap, values: map<GlobalValue, GlobalValue>, constMasks: set<RegMask>)

  predicate OperandImage(o: Operand, d: Operand, m: Maps) {
    match o
    case BlockOp(b) => b in m.blocks && d == BlockOp(m.blocks[b])
    case RegMaskOp(mask) => d.RegMaskOp? && d.mask.bits == mask.bits && (mask in m.constMasks ==> d.mask == mask)
    case GlobalOp(gv, offset, flags) => gv in m.values && d == GlobalOp(m.values[gv], offset, flags)
    case _ => d == o
  }

  ghost predicate InstrImage(s: MachineInstr, d: MachineInstr, m: Maps)
    reads s, d
  {
    && d.opcode == s.opcode && d.debugLoc == s.debugLoc && d.flags == s.flags && d.asmPrinterFlags == s.asmPrinterFlags
    && |d.operands| == |s.operands| && d.memRefs == s.memRefs
    && forall k | 0 <= k < |s.operands| :: OperandImage(s.operands[k], d.operands[k], m)
  }

  ghost predicate InstrsImage(s: seq<MachineInstr>, d: seq<MachineInstr>, m: Maps)
    reads s, d
  {
    |d| == |s| && forall k | 0 <= k < |s| :: InstrImage(s[k], d[k], m)
  }

  ghost predicate EdgesImage(s: seq<(MachineBasicBlock, nat)>, d: seq<(MachineBasicBlock, nat)>, m: BlockMap) {
    |d| == |s| && forall k | 0 <= k < |s| :: s[k].0 in m && d[k] == (m[s[k].0], s[k].1)
  }

  // ---- what can be copied at all

  predicate OperandCloneable(o: Operand, m: Maps) {
    o.GlobalOp? ==> o.gv in m.values
  }

  predicate MemOperandCloneable(o: MemOperand) {
    o.pseudo.Some? ==> !o.pseudo.value.TargetCustom?
  }

  ghost predicate InstrCloneable(s: MachineInstr, m: Maps)
    reads s
  {
    && (forall k | 0 <= k < |s.operands| :: OperandCloneable(s.operands[k], m))
    && (forall k | 0 <= k < |s.memRefs| :: MemOperandCloneable(s.memRefs[k]))
  }

  ghost predicate InstrsCloneable(s: seq<MachineInstr>, m: Maps)
    reads s
  {
    forall k | 0 <= k < |s| :: InstrCloneable(s[k], m)
  }

  // ---- instructions

  ghost predicate OperandsMapped(s: MachineInstr, m: Maps)
    reads s
  {
    forall k | 0 <= k < |s.operands| :: s.operands[k].BlockOp? ==> s.operands[k].mbb in m.blocks
  }

  method CloneOperand(o: Operand, m: Maps) returns (r: Result<Operand, Error>)
    requires o.BlockOp? ==> o.mbb in m.blocks
    ensures r.Ok? <==> OperandCloneable(o, m)
    ensures r.Ok? ==> OperandImage(o, r.value, m)
  {
    match o {
      case BlockOp(b) =>
        return Ok(BlockOp(m.blocks[b]));
      case RegMaskOp(mask) =>
        if mask in m.constMasks {
          return Ok(o);
        }
        var copy := new RegMask(mask.bits);
        return Ok(RegMaskOp(copy));
      case GlobalOp(gv, offset, flags) =>
        if gv !in m.values {
          return Err(GlobalNotMapped);
        }
        return Ok(GlobalOp(m.values[gv], offset, flags));
      case _ =>
        return Ok(o);
    }
  }

  /** Copies memory operands into the pseudo sources of the new function. */
  method CloneMemOperands(d: MachineInstr, s: MachineInstr) returns (r: Result<(), Error>)
    requires s != d
    modifies d`memRefs
    ensures r.Ok? <==> forall k | 0 <= k < |s.memRefs| :: MemOperandCloneable(s.memRefs[k])
    ensures r.Ok? ==> d.memRefs == s.memRefs
  {
    var copies: seq<MemOperand> := [];
    for k := 0 to |s.memRefs|
      invariant copies == s.memRefs[..k]
      invariant forall j | 0 <= j < k :: MemOperandCloneable(s.memRefs[j])
    {
      var o := s.memRefs[k];
      if o.pseudo.Some? && o.pseudo.value.TargetCustom? {
        return Err(CustomPseudoSource);
      }
      copies := copies + [o];
    }
    d.memRefs := copies;
    return Ok(());
  }

  /** The map after the pair was inserted for every operand: the first insertion
      of a key stays. */
  ghost function Recorded(before: MIMap, s: MachineInstr, d: MachineInstr): MIMap
    reads s
  {
    if s.operands == [] || s in before then before else before[s := d]
  }

  method FillInstr(s: MachineInstr, d: MachineInstr, m: Maps, miMap: InstrMap?) returns (r: Result<(), Error>)
    requires s != d && d.opcode == s.opcode && d.debugLoc == s.debugLoc && d.operands == []
    requires OperandsMapped(s, m)
    modifies d, miMap
    ensures r.Ok? <==> InstrCloneable(s, m)
    ensures r.Ok? ==> InstrImage(s, d, m) && (miMap != null ==> miMap.m == old(Recorded(miMap.m, s, d)))
  {
    d.flags := s.flags;
    d.asmPrinterFlags := s.asmPrinterFlags;
    for k := 0 to |s.operands|
      invariant |d.operands| == k && d.flags == s.flags && d.asmPrinterFlags == s.asmPrinterFlags
      invariant forall j | 0 <= j < k ::
                OperandCloneable(s.operands[j], m) && OperandImage(s.operands[j], d.operands[j], m)
      invariant miMap != null ==> miMap.m == if k == 0 || s in old(miMap.m) then old(miMap.m) else old(miMap.m)[s := d]
    {
      var o := CloneOperand(s.operands[k], m);
      if o.Err? {
        return Err(o.error);
      }
      d.operands := d.operands + [o.value];
      if miMap != null && s !in miMap.m {
        miMap.m := miMap.m[s := d];
      }
    }
    r := CloneMemOperands(d, s);
  }

  /** The map after the instructions `s[..n]` were recorded with `d[..n]`. */
  ghost function RecordedAll(before: MIMap, s: seq<MachineInstr>, d: seq<MachineInstr>): MIMap
    requires |s| == |d|
    reads s
  {
    if s == [] then before
    else Recorded(RecordedAll(before, s[..|s| - 1], d[..|d| - 1]), s[|s| - 1], d[|d| - 1])
  }

  lemma RecordedStep(before: MIMap, s: seq<MachineInstr>, d: seq<MachineInstr>, smi: MachineInstr, dmi: MachineInstr)
    requires |s| == |d|
    ensures RecordedAll(before, s + [smi], d + [dmi]) == Recorded(RecordedAll(before, s, d), smi, dmi)
  {
    assert (s + [smi])[..|s|] == s && (d + [dmi])[..|d|] == d;
  }

  /** Copying one more instruction extends what was copied so far. */
  lemma AppendImage(s: seq<MachineInstr>, d: seq<MachineInstr>, smi: MachineInstr, dmi: MachineInstr, m: Maps)
    requires InstrsCloneable(s, m) && InstrsImage(s, d, m) && AllDistinct(d)
    requires InstrCloneable(smi, m) && InstrImage(smi, dmi, m) && dmi !in d
    ensures InstrsCloneable(s + [smi], m) && InstrsImage(s + [smi], d + [dmi], m) && AllDistinct(d + [dmi])
  {
  }

  /** Copies the instructions of one block. The instructions `fs` were copied to
      `fd` before, starting with the map `m0`. */
  method CloneBlockInstrs(s: MachineBasicBlock, d: MachineBasicBlock, m: Maps, miMap: InstrMap?,
                          ghost m0: MIMap, ghost fs: seq<MachineInstr>, ghost fd: seq<MachineInstr>)
    returns (r: Result<(), Error>)
    requires s != d && d.instrs == [] && |fs| == |fd|
    requires InstrsCloneable(fs, m) && InstrsImage(fs, fd, m) && AllDistinct(fd)
    requires miMap != null ==> miMap.m == RecordedAll(m0, fs, fd)
    requires forall i | i in s.instrs :: OperandsMapped(i, m)
    modifies d`instrs, miMap
    ensures r.Ok? <==> InstrsCloneable(s.instrs, m)
    ensures r.Ok? ==> |d.instrs| == |s.instrs| && forall k | 0 <= k < |d.instrs| :: fresh(d.instrs[k])
    ensures r.Ok? ==> InstrsCloneable(fs + s.instrs, m) && InstrsImage(fs + s.instrs, fd + d.instrs, m)
    ensures r.Ok? ==> AllDistinct(fd + d.instrs)
    ensures r.Ok? && miMap != null ==> miMap.m == RecordedAll(m0, fs + s.instrs, fd + d.instrs)
  {
    hide InstrImage, InstrCloneable, InstrsImage, Recorded, RecordedAll, AllDistinct, OperandsMapped;
    ghost var a, b := fs, fd;
    for n := 0 to |s.instrs|
      invariant |d.instrs| == n && a == fs + s.instrs[..n] && b == fd + d.instrs
      invariant forall k | 0 <= k < n :: fresh(d.instrs[k])
      invariant InstrsCloneable(a, m) && InstrsImage(a, b, m) && AllDistinct(b)
      invariant miMap != null ==> miMap.m == RecordedAll(m0, a, b)
      invariant forall i | i in s.instrs :: OperandsMapped(i, m)
    {
      var smi := s.instrs[n];
      var dmi := new MachineInstr(smi.opcode, smi.debugLoc);
      d.instrs := d.instrs + [dmi];
      r := FillInstr(smi, dmi, m, miMap);
      if r.Err? {
        return;
      }
      AppendImage(a, b, smi, dmi, m);
      if miMap != null {
        RecordedStep(m0, a, b, smi, dmi);
      }
      assert s.instrs[..n + 1] == s.instrs[..n] + [smi];
      a, b := a + [smi], b + [dmi];
    }
    assert s.instrs[..|s.instrs|] == s.instrs;
    assert forall k | 0 <= k < |s.instrs| :: s.instrs[k] == (fs + s.instrs)[|fs| + k];
    return Ok(());
  }

  // ---- blocks

  /** `ds` are the copies of the blocks `ss`, in order. */
  ghost predicate Paired(ss: seq<MachineBasicBlock>, ds: seq<MachineBasicBlock>, m: BlockMap) {
    && |ds| == |ss|
    && (forall b | 0 <= b < |ss| :: ss[b] in m && m[ss[b]] == ds[b])
    && (forall s: MachineBasicBlock | s in m :: s in ss)
    && (forall b, c | 0 <= b < c < |ds| :: ds[b] != ds[c])
    && (forall b, c | 0 <= b < |ss| && 0 <= c < |ds| :: ss[b] != ds[c])
  }

  method CloneAttrs(s: MachineBasicBlock, d: MachineBasicBlock)
    requires s != d && d.attrs == DEFAULT_ATTRS
    modifies d`attrs
    ensures d.attrs == s.attrs
  {
    d.attrs := d.attrs.(callFrameSize := s.attrs.callFrameSize);
    if s.attrs.addressTakenIRBlock.Some? {
      d.attrs := d.attrs.(addressTakenIRBlock := s.attrs.addressTakenIRBlock);
    }
    if s.attrs.machineBlockAddressTaken {
      d.attrs := d.attrs.(machineBlockAddressTaken := true);
    }
    if s.attrs.labelMustBeEmitted {
      d.attrs := d.attrs.(labelMustBeEmitted := true);
    }
    d.attrs := d.attrs.(alignment := s.attrs.alignment, maxBytesForAlignment := s.attrs.maxBytesForAlignment);
    d.attrs := d.attrs.(eh := s.attrs.eh, section := s.attrs.section);
    d.attrs := d.attrs.(isInlineAsmBrIndirectTarget := s.attrs.isInlineAsmBrIndirectTarget);
    if s.attrs.irrLoopHeaderWeight.Some? {
      d.attrs := d.attrs.(irrLoopHeaderWeight := s.attrs.irrLoopHeaderWeight);
    }
  }

  lemma PairedStep(ss: seq<MachineBasicBlock>, n: nat, ds: seq<MachineBasicBlock>, m: BlockMap, d: MachineBasicBlock)
    requires n < |ss| && BlocksListedOnce(ss) && Paired(ss[..n], ds, m)
    requires d !in ds && d !in ss && ss[n] !in ds
    ensures Paired(ss[..n + 1], ds + [d], m[ss[n] := d])
  {
    assert ss[..n + 1] == ss[..n] + [ss[n]];
  }

  ghost predicate Bare(s: MachineBasicBlock, d: MachineBasicBlock)
    reads s, d
  {
    d.attrs == s.attrs && d.successors == [] && d.liveIns == [] && d.instrs == []
  }

  method CloneBlocks(ss: seq<MachineBasicBlock>) returns (src2dst: BlockMap, ghost ds: seq<MachineBasicBlock>)
    requires BlocksListedOnce(ss)
    ensures Paired(ss, ds, src2dst)
    ensures forall b | 0 <= b < |ss| :: fresh(ds[b]) && Bare(ss[b], ds[b])
  {
    src2dst, ds := map[], [];
    assert Paired(ss[..0], ds, src2dst);
    hide Paired;
    for n := 0 to |ss|
      invariant |ds| == n && Paired(ss[..n], ds, src2dst)
      invariant forall b | 0 <= b < n :: fresh(ds[b]) && Bare(ss[b], ds[b])
    {
      var d := new MachineBasicBlock();
      CloneAttrs(ss[n], d);
      PairedStep(ss, n, ds, src2dst, d);
      src2dst, ds := src2dst[ss[n] := d], ds + [d];
    }
    assert ss[..|ss|] == ss;
  }

  lemma PairedCovers(ss: seq<MachineBasicBlock>, ds: seq<MachineBasicBlock>, m: BlockMap)
    requires Paired(ss, ds, m)
    ensures |ds| == |ss| && forall s | s in ss :: s in m
  {
  }

  method CloneVirtRegs(src: MachineFunction, dst: MachineFunction)
    requires src != dst && dst.virtRegs == []
    modifies dst`virtRegs
    ensures VirtRegsImage(src.virtRegs, dst.virtRegs)
  {
    var i, e := 0, |src.virtRegs|;
    while i != e
      invariant 0 <= i <= e && |dst.virtRegs| == i
      invariant forall k | 0 <= k < i :: VirtRegKept(src.virtRegs[k], dst.virtRegs[k])
      decreases e - i
    {
      var v := src.virtRegs[i];
      var newReg := |dst.virtRegs|;
      dst.virtRegs := dst.virtRegs + [VirtReg(v.name, v.regClass, None, 0, [])];
      assert newReg == i;
      if v.ty.Some? {
        dst.virtRegs := dst.virtRegs[newReg := dst.virtRegs[newReg].(ty := v.ty)];
      }
      for h := 0 to |v.hints|
        invariant |dst.virtRegs| == i + 1
        invariant dst.virtRegs[i] == VirtReg(v.name, v.regClass, v.ty, 0, v.hints[..h])
        invariant forall k | 0 <= k < i :: VirtRegKept(src.virtRegs[k], dst.virtRegs[k])
      {
        dst.virtRegs := dst.virtRegs[newReg := dst.virtRegs[newReg].(hints := dst.virtRegs[newReg].hints +
            [v.hints[h]])];
        assert v.hints[..h + 1] == v.hints[..h] + [v.hints[h]];
      }
      assert v.hints[..|v.hints|] == v.hints;
      i := i + 1;
    }
  }

  method LinkBlock(s: MachineBasicBlock, d: MachineBasicBlock, src2dst: BlockMap)
    requires s != d && d.successors == [] && d.liveIns == []
    requires forall k | 0 <= k < |s.successors| :: s.successors[k].0 in src2dst
    modifies d`successors, d`liveIns
    ensures EdgesImage(s.successors, d.successors, src2dst) && d.liveIns == s.liveIns
  {
    for k := 0 to |s.successors|
      invariant EdgesImage(s.successors[..k], d.successors, src2dst) && d.liveIns == []
    {
      var (succ, probability) := s.successors[k];
      d.successors := d.successors + [(src2dst[succ], probability)];
    }
    assert s.successors[..|s.successors|] == s.successors;
    for k := 0 to |s.liveIns|
      invariant d.liveIns == s.liveIns[..k] && EdgesImage(s.successors, d.successors, src2dst)
    {
      d.liveIns := d.liveIns + [s.liveIns[k]];
    }
    assert s.liveIns[..|s.liveIns|] == s.liveIns;
  }

  method LinkBlocks(src: MachineFunction, dst: MachineFunction, src2dst: BlockMap, ghost ds: seq<MachineBasicBlock>)
    requires src != dst && dst.blocks == [] && Paired(src.blocks, ds, src2dst)
    requires EdgesInside(src.blocks)
    requires forall b | 0 <= b < |ds| :: ds[b].successors == [] && ds[b].liveIns == []
    modifies dst`blocks, ds`successors, ds`liveIns
    ensures dst.blocks == ds
    ensures forall b | 0 <= b < |ds| ::
              EdgesImage(src.blocks[b].successors, ds[b].successors, src2dst) && ds[b].liveIns == src.blocks[b].liveIns
  {
    for n := 0 to |src.blocks|
      invariant dst.blocks == ds[..n]
      invariant forall b | 0 <= b < n ::
                EdgesImage(src.blocks[b].successors, ds[b].successors, src2dst) &&
                    ds[b].liveIns == src.blocks[b].liveIns
      invariant forall b | n <= b < |ds| :: ds[b].successors == [] && ds[b].liveIns == []
    {
      var d := src2dst[src.blocks[n]];
      assert d == ds[n];
      dst.blocks := dst.blocks + [d];
      LinkBlock(src.blocks[n], d, src2dst);
    }
    assert ds[..|ds|] == ds;
  }

  /** Exactly the instructions with an operand are recorded, each with its copy;
      an instruction that had an entry before keeps it. */
  ghost predicate ExactRecord(before: MIMap, m: MIMap, s: seq<MachineInstr>, d: seq<MachineInstr>)
    requires |s| == |d|
    reads s
  {
    && (forall k | k in before :: k in m && m[k] == before[k])
    && (forall k | 0 <= k < |s| && s[k] !in before ::
        (s[k] in m <==> s[k].operands != []) && (s[k] in m ==> m[s[k]] == d[k]))
    && (forall k | k in m && k !in before :: k in s)
  }

  lemma ExactRecordStep(before: MIMap, m: MIMap, s: seq<MachineInstr>, d: seq<MachineInstr>, smi: MachineInstr,
                        dmi: MachineInstr)
    requires |s| == |d| && smi !in s && ExactRecord(before, m, s, d)
    ensures ExactRecord(before, Recorded(m, smi, dmi), s + [smi], d + [dmi])
  {
    assert smi !in before ==> smi !in m;
  }

  lemma {:induction false} RecordedExact(before: MIMap, s: seq<MachineInstr>, d: seq<MachineInstr>)
    requires |s| == |d| && AllDistinct(s)
    ensures ExactRecord(before, RecordedAll(before, s, d), s, d)
    decreases |s|
  {
    if s != [] {
      var n := |s| - 1;
      assert s[n] !in s[..n];
      RecordedExact(before, s[..n], d[..n]);
      ExactRecordStep(before, RecordedAll(before, s[..n], d[..n]), s[..n], d[..n], s[n], d[n]);
      assert s == s[..n] + [s[n]] && d == d[..n] + [d[n]];
    }
  }

  ghost function Concat(parts: seq<seq<MachineInstr>>): seq<MachineInstr> {
    if parts == [] then [] else Concat(parts[..|parts| - 1]) + parts[|parts| - 1]
  }

  lemma {:induction false} FlatIsConcat(blocks: seq<MachineBasicBlock>, parts: seq<seq<MachineInstr>>)
    requires |parts| == |blocks| && forall b | 0 <= b < |blocks| :: blocks[b].instrs == parts[b]
    ensures Flat(blocks) == Concat(parts)
    decreases |blocks|
  {
    if blocks != [] {
      FlatIsConcat(blocks[..|blocks| - 1], parts[..|parts| - 1]);
    }
  }

  lemma ConcatStep(parts: seq<seq<MachineInstr>>, p: seq<MachineInstr>)
    ensures Concat(parts + [p]) == Concat(parts) + p
  {
    assert (parts + [p])[..|parts|] == parts;
  }

  /** The blocks `ss` have the instruction lists `sp`, all of whose block operands
      are mapped; the copies `ds` of the first |dp| have the lists `dp`. */
  ghost predicate BlocksDone(ss: seq<MachineBasicBlock>, sp: seq<seq<MachineInstr>>, ds: seq<MachineBasicBlock>,
                             dp: seq<seq<MachineInstr>>, m: Maps)
    reads ss, ds, set b, k | 0 <= b < |sp| && 0 <= k < |sp[b]| :: sp[b][k]
  {
    && |ds| == |ss| == |sp| && |dp| <= |ss|
    && (forall b | 0 <= b < |ss| :: ss[b] in m.blocks && m.blocks[ss[b]] == ds[b] && ss[b].instrs == sp[b])
    && (forall b, c | 0 <= b < c < |ds| :: ds[b] != ds[c])
    && (forall s | s in ss :: s !in ds)
    && (forall b | 0 <= b < |dp| :: ds[b].instrs == dp[b] && |dp[b]| == |sp[b]|)
    && (forall b | |dp| <= b < |ds| :: ds[b].instrs == [])
    && (forall b, k | 0 <= b < |sp| && 0 <= k < |sp[b]| :: OperandsMapped(sp[b][k], m))
  }

  /** The instructions copied so far, and the map that was recorded from `m0` on. */
  ghost predicate InstrsDone(sp: seq<seq<MachineInstr>>, dp: seq<seq<MachineInstr>>, m: Maps, m0: MIMap,
                             miMap: InstrMap?)
    requires |dp| <= |sp|
    reads Concat(sp), Concat(dp), miMap, Concat(sp[..|dp|])
  {
    var fs, fd := Concat(sp[..|dp|]), Concat(dp);
    && |fs| == |fd| && InstrsCloneable(fs, m) && InstrsImage(fs, fd, m) && AllDistinct(fd)
    && (miMap != null ==> miMap.m == RecordedAll(m0, fs, fd))
  }

  lemma NotCloneable(sp: seq<seq<MachineInstr>>, n: nat, m: Maps)
    requires n < |sp| && !InstrsCloneable(sp[n], m)
    ensures exists b, k | 0 <= b < |sp| && 0 <= k < |sp[b]| :: !InstrCloneable(sp[b][k], m)
  {
  }

  lemma {:induction false} ConcatHolds(parts: seq<seq<MachineInstr>>, n: nat)
    requires n < |parts|
    ensures forall i | i in parts[n] :: i in Concat(parts)
    decreases |parts|
  {
    if n < |parts| - 1 {
      ConcatHolds(parts[..|parts| - 1], n);
    }
  }

  method CloneNextBlock(ss: seq<MachineBasicBlock>, ghost sp: seq<seq<MachineInstr>>, m: Maps,
                        ghost ds: seq<MachineBasicBlock>,
                        miMap: InstrMap?, ghost m0: MIMap, n: nat, ghost dp: seq<seq<MachineInstr>>)
    returns (r: Result<(), Error>, ghost dp': seq<seq<MachineInstr>>)
    requires n == |dp| < |ss| && BlocksDone(ss, sp, ds, dp, m) && InstrsDone(sp, dp, m, m0, miMap)
    modifies ds`instrs, miMap
    ensures r.Err? ==> exists b, k | 0 <= b < |sp| && 0 <= k < |sp[b]| :: !InstrCloneable(sp[b][k], m)
    ensures r.Ok? ==> |dp'| == n + 1 && BlocksDone(ss, sp, ds, dp', m) && InstrsDone(sp, dp', m, m0, miMap)
    ensures r.Ok? ==> forall i | i in Concat(dp') :: i in Concat(dp) || fresh(i)
  {
    hide InstrsCloneable, InstrsImage, RecordedAll, OperandsMapped, AllDistinct, Concat;
    var d := m.blocks[ss[n]];
    assert ss[n].instrs == sp[n] && d in ds;
    assert forall b | 0 <= b < |ss| :: ss[b] in ss && ss[b] != d;
    r := CloneBlockInstrs(ss[n], d, m, miMap, m0, Concat(sp[..n]), Concat(dp));
    dp' := dp + [d.instrs];
    if r.Err? {
      NotCloneable(sp, n, m);
    }
    ConcatStep(sp[..n], sp[n]);
    ConcatStep(dp, d.instrs);
    assert sp[..n + 1] == sp[..n] + [sp[n]];
  }

  method CloneInstrLists(ss: seq<MachineBasicBlock>, ghost sp: seq<seq<MachineInstr>>, m: Maps,
                         ghost ds: seq<MachineBasicBlock>, miMap: InstrMap?)
    returns (r: Result<(), Error>, ghost dp: seq<seq<MachineInstr>>)
    requires BlocksDone(ss, sp, ds, [], m)
    modifies ds`instrs, miMap
    ensures r.Err? ==> exists b, k | 0 <= b < |sp| && 0 <= k < |sp[b]| :: !InstrCloneable(sp[b][k], m)
    ensures r.Ok? ==> |dp| == |sp| && BlocksDone(ss, sp, ds, dp, m)
    ensures r.Ok? ==> InstrsDone(sp, dp, m, old(if miMap == null then map[] else miMap.m), miMap)
    ensures r.Ok? ==> forall i | i in Concat(dp) :: fresh(i)
  {
    dp := [];
    assert |sp| == |ss|;
    hide InstrsCloneable, InstrsImage, BlocksDone, InstrsDone, AllDistinct;
    NothingDone(sp, m, if miMap == null then map[] else miMap.m, miMap);
    for n := 0 to |ss|
      invariant |dp| == n && BlocksDone(ss, sp, ds, dp, m)
      invariant InstrsDone(sp, dp, m, old(if miMap == null then map[] else miMap.m), miMap)
      invariant forall i | i in Concat(dp) :: fresh(i)
    {
      r, dp := CloneNextBlock(ss, sp, m, ds, miMap, old(if miMap == null then map[] else miMap.m), n, dp);
      if r.Err? {
        return;
      }
    }
    r := Ok(());
  }

  lemma NothingDone(sp: seq<seq<MachineInstr>>, m: Maps, m0: MIMap, miMap: InstrMap?)
    requires miMap != null ==> miMap.m == m0
    ensures InstrsDone(sp, [], m, m0, miMap) && Concat([]) == []
  {
  }

  ghost function InstrLists(ss: seq<MachineBasicBlock>): (sp: seq<seq<MachineInstr>>)
    reads ss
    ensures |sp| == |ss| && forall b | 0 <= b < |ss| :: sp[b] == ss[b].instrs
  {
    if ss == [] then [] else InstrLists(ss[..|ss| - 1]) + [ss[|ss| - 1].instrs]
  }

  lemma StartBlocks(ss: seq<MachineBasicBlock>, m: Maps, ds: seq<MachineBasicBlock>)
    requires Paired(ss, ds, m.blocks) && AllInside(ss)
    requires forall b | 0 <= b < |ds| :: ds[b].instrs == []
    ensures BlocksDone(ss, InstrLists(ss), ds, [], m)
  {
    var sp := InstrLists(ss);
    forall b, k | 0 <= b < |ss| && 0 <= k < |sp[b]| ensures OperandsMapped(sp[b][k], m) {
      assert OperandsInside(ss[b].instrs[k], ss);
    }
  }

  lemma SplitImage(s1: seq<MachineInstr>, d1: seq<MachineInstr>, s2: seq<MachineInstr>, d2: seq<MachineInstr>, m: Maps)
    requires |s1| == |d1| && InstrsImage(s1 + s2, d1 + d2, m)
    ensures InstrsImage(s1, d1, m) && InstrsImage(s2, d2, m)
  {
    assert forall k | 0 <= k < |s1| :: s1[k] == (s1 + s2)[k] && d1[k] == (d1 + d2)[k];
    assert forall k | 0 <= k < |s2| :: s2[k] == (s1 + s2)[|s1| + k] && d2[k] == (d1 + d2)[|d1| + k];
  }

  lemma {:induction false} SplitImages(sp: seq<seq<MachineInstr>>, dp: seq<seq<MachineInstr>>, m: Maps)
    requires |sp| == |dp| && (forall b | 0 <= b < |sp| :: |sp[b]| == |dp[b]|)
    requires InstrsImage(Concat(sp), Concat(dp), m)
    ensures forall b | 0 <= b < |sp| :: InstrsImage(sp[b], dp[b], m)
    decreases |sp|
  {
    hide InstrsImage;
    if sp != [] {
      var n := |sp| - 1;
      SameLength(sp[..n], dp[..n]);
      SplitImage(Concat(sp[..n]), Concat(dp[..n]), sp[n], dp[n], m);
      SplitImages(sp[..n], dp[..n], m);
    }
  }

  lemma {:induction false} SameLength(sp: seq<seq<MachineInstr>>, dp: seq<seq<MachineInstr>>)
    requires |sp| == |dp| && forall b | 0 <= b < |sp| :: |sp[b]| == |dp[b]|
    ensures |Concat(sp)| == |Concat(dp)|
    decreases |sp|
  {
    if sp != [] {
      SameLength(sp[..|sp| - 1], dp[..|dp| - 1]);
    }
  }

  /** The instructions of the blocks `ss` were copied into the blocks `ds`. */
  ghost predicate AllCopied(ss: seq<MachineBasicBlock>, ds: seq<MachineBasicBlock>, m: Maps, m0: MIMap,
                            miMap: InstrMap?)
    reads ss, ds, Flat(ss), Flat(ds), InstrSet(ss), InstrSet(ds), miMap
  {
    && |ds| == |ss| && |Flat(ds)| == |Flat(ss)| && AllDistinct(Flat(ds))
    && AllCloneable(ss, m.values)
    && (forall b | 0 <= b < |ss| :: InstrsImage(ss[b].instrs, ds[b].instrs, m))
    && (miMap != null ==> miMap.m == RecordedAll(m0, Flat(ss), Flat(ds)))
  }

  ghost predicate AllCloneable(ss: seq<MachineBasicBlock>, values: map<GlobalValue, GlobalValue>)
    reads ss, InstrSet(ss)
  {
    forall b, k | 0 <= b < |ss| && 0 <= k < |ss[b].instrs| :: InstrCloneable(ss[b].instrs[k], Maps(map[], values, {}))
  }

  lemma FinishBlocks(ss: seq<MachineBasicBlock>, sp: seq<seq<MachineInstr>>, ds: seq<MachineBasicBlock>,
                     dp: seq<seq<MachineInstr>>, m: Maps, m0: MIMap, miMap: InstrMap?)
    requires |dp| == |sp| && BlocksDone(ss, sp, ds, dp, m) && InstrsDone(sp, dp, m, m0, miMap)
    ensures AllCopied(ss, ds, m, m0, miMap) && AllCloneable(ss, m.values) && Flat(ds) == Concat(dp)
  {
    assert sp[..|dp|] == sp;
    FlatIsConcat(ss, sp);
    FlatIsConcat(ds, dp);
    SplitImages(sp, dp, m);
    forall b, k | 0 <= b < |ss| && 0 <= k < |ss[b].instrs|
      ensures InstrCloneable(ss[b].instrs[k], Maps(map[], m.values, {})) {
      ConcatHolds(sp, b);
      assert sp[b][k] in sp[b];
      assert InstrCloneable(sp[b][k], m);
    }
  }

  lemma NotAllCloneable(ss: seq<MachineBasicBlock>, m: Maps, b: nat, k: nat)
    requires b < |ss| && k < |ss[b].instrs| && !InstrCloneable(ss[b].instrs[k], m)
    ensures !AllCloneable(ss, m.values)
  {
    var i := ss[b].instrs[k];
    assert InstrCloneable(i, Maps(map[], m.values, {})) ==> InstrCloneable(i, m);
  }

  method CloneAllInstrs(ss: seq<MachineBasicBlock>, m: Maps, ghost ds: seq<MachineBasicBlock>,
                        miMap: InstrMap?)
    returns (r: Result<(), Error>)
    requires Paired(ss, ds, m.blocks)
    requires AllInside(ss)
    requires forall b | 0 <= b < |ds| :: ds[b].instrs == []
    modifies ds`instrs, miMap
    ensures r.Ok? <==> AllCloneable(ss, m.values)
    ensures r.Ok? ==> AllCopied(ss, ds, m, old(if miMap == null then map[] else miMap.m), miMap)
    ensures r.Ok? ==> forall i | i in Flat(ds) :: fresh(i)
  {
    StartBlocks(ss, m, ds);
    ghost var sp, dp := InstrLists(ss), [];
    assert forall s | s in ss :: s !in ds;
    hide AllCopied, InstrsDone, Paired, Flat, AllInside, AllCloneable;
    r, dp := CloneInstrLists(ss, sp, m, ds, miMap);
    if r.Ok? {
      FinishBlocks(ss, sp, ds, dp, m, old(if miMap == null then map[] else miMap.m), miMap);
    } else {
      ghost var b, k :| 0 <= b < |sp| && 0 <= k < |sp[b]| && !InstrCloneable(sp[b][k], m);
      NotAllCloneable(ss, m, b, k);
    }
  }

  // ---- whole functions

  ghost predicate FunctionCloneable(src: MachineFunction, values: map<GlobalValue, GlobalValue>)
    reads src, src.blocks, InstrSet(src.blocks)
  {
    src.function_ in values && AllCloneable(src.blocks, values) && !src.hasUncloneableProperty &&
        src.targetInfoCloneable
  }

  /** All but the type of the allocation hints is kept. */
  ghost predicate VirtRegKept(s: VirtReg, d: VirtReg) {
    d.name == s.name && d.regClass == s.regClass && d.ty == s.ty && d.hints == s.hints && d.hintType == 0
  }

  ghost predicate VirtRegsImage(s: seq<VirtReg>, d: seq<VirtReg>) {
    |d| == |s| && forall i | 0 <= i < |s| :: VirtRegKept(s[i], d[i])
  }

  ghost predicate BlockShellsImage(ss: seq<MachineBasicBlock>, ds: seq<MachineBasicBlock>, m: BlockMap)
    reads ss`attrs, ss`liveIns, ss`successors, ds`attrs, ds`liveIns, ds`successors
  {
    && Paired(ss, ds, m)
    && (forall b | 0 <= b < |ss| :: ds[b].attrs == ss[b].attrs && ds[b].liveIns == ss[b].liveIns)
    && (forall b | 0 <= b < |ss| :: EdgesImage(ss[b].successors, ds[b].successors, m))
  }

  /** `dst` is `src` but for the instructions, and for its tables, which are not copied. */
  ghost predicate ShellImage(src: MachineFunction, dst: MachineFunction, m: Maps, fixedAlign: int -> nat)
    reads src`blocks, src`virtRegs, dst`blocks, dst`virtRegs, dst`tables, src.frameInfo, dst.frameInfo
    reads src.blocks`attrs, src.blocks`liveIns, src.blocks`successors
    reads dst.blocks`attrs, dst.blocks`liveIns, dst.blocks`successors
  {
    && src.function_ in m.values && dst.function_ == m.values[src.function_] && dst.functionNumber == src.functionNumber
    && BlockShellsImage(src.blocks, dst.blocks, m.blocks)
    && FrameAndRegsImage(src, dst, m.blocks, fixedAlign)
    && dst.tables == Tables([], [])
  }

  ghost predicate FrameAndRegsImage(src: MachineFunction, dst: MachineFunction, m: BlockMap, fixedAlign: int -> nat)
    reads src`virtRegs, dst`virtRegs, src.frameInfo, dst.frameInfo
  {
    && VirtRegsImage(src.virtRegs, dst.virtRegs)
    && FrameImage(src.frameInfo, dst.frameInfo, fixedAlign)
    && MappedBlock(src.frameInfo.savePoint, dst.frameInfo.savePoint, m)
    && MappedBlock(src.frameInfo.restorePoint, dst.frameInfo.restorePoint, m)
  }

  predicate MappedBlock(s: MachineBasicBlock?, d: MachineBasicBlock?, m: BlockMap) {
    if s == null then d == null else s in m && d == m[s]
  }

  method CloneBlockShells(src: MachineFunction, dst: MachineFunction) returns (src2dst: BlockMap)
    requires src != dst && dst.blocks == []
    requires BlocksListedOnce(src.blocks) && EdgesInside(src.blocks)
    modifies dst`blocks
    ensures BlockShellsImage(src.blocks, dst.blocks, src2dst) && forall s | s in src.blocks :: s in src2dst
    ensures forall b | 0 <= b < |dst.blocks| :: fresh(dst.blocks[b]) && dst.blocks[b].instrs == []
  {
    hide EdgesImage, Paired, MachineFunction.Valid;
    ghost var ds;
    src2dst, ds := CloneBlocks(src.blocks);
    PairedCovers(src.blocks, ds, src2dst);
    LinkBlocks(src, dst, src2dst, ds);
  }

  method CloneFrameAndRegs(src: MachineFunction, dst: MachineFunction, src2dst: BlockMap, fixedAlign: int -> nat)
    requires src != dst && src.frameInfo != dst.frameInfo && src.frameInfo.Valid()
    requires src.frameInfo.savePoint != null ==> src.frameInfo.savePoint in src2dst
    requires src.frameInfo.restorePoint != null ==> src.frameInfo.restorePoint in src2dst
    requires dst.virtRegs == [] && dst.frameInfo.objects == [] && dst.frameInfo.numFixedObjects == 0
    requires dst.frameInfo.savePoint == null && dst.frameInfo.restorePoint == null
    modifies dst`virtRegs, dst.frameInfo
    ensures FrameAndRegsImage(src, dst, src2dst, fixedAlign)
  {
    hide FrameImage, VirtRegsImage;
    CloneFrameInfo(dst.frameInfo, src.frameInfo, src2dst, fixedAlign);
    CloneVirtRegs(src, dst);
  }

  method CloneShell(src: MachineFunction, values: map<GlobalValue, GlobalValue>, constMasks: set<RegMask>,
                    fixedAlign: int -> nat)
    returns (dst: MachineFunction, m: Maps)
    requires src.Valid() && src.function_ in values
    ensures fresh(dst) && m.values == values && m.constMasks == constMasks && ShellImage(src, dst, m, fixedAlign)
    ensures forall b | 0 <= b < |dst.blocks| :: fresh(dst.blocks[b]) && dst.blocks[b].instrs == []
  {
    hide BlockShellsImage, FrameAndRegsImage;
    var frame := new MachineFrameInfo();
    dst := new MachineFunction(values[src.function_], src.functionNumber, frame);
    var src2dst := CloneBlockShells(src, dst);
    m := Maps(src2dst, values, constMasks);
    CloneFrameAndRegs(src, dst, src2dst, fixedAlign);
  }

  /** Copies the instructions into a shell and checks what cannot be copied. */
  method CloneBody(src: MachineFunction, dst: MachineFunction, m: Maps, fixedAlign: int -> nat,
                   miMap: InstrMap?)
    returns (r: Result<(), Error>)
    requires src != dst && ShellImage(src, dst, m, fixedAlign) && Paired(src.blocks, dst.blocks, m.blocks) &&
             AllInside(src.blocks)
    requires forall b | 0 <= b < |dst.blocks| :: dst.blocks[b].instrs == []
    modifies dst.blocks`instrs, miMap
    ensures r.Ok? <==> AllCloneable(src.blocks, m.values) && !src.hasUncloneableProperty && src.targetInfoCloneable
    ensures ShellImage(src, dst, m, fixedAlign)
    ensures r.Ok? ==> AllCopied(src.blocks, dst.blocks, m, old(if miMap == null then map[] else miMap.m), miMap)
    ensures r.Ok? ==> forall i | i in Flat(dst.blocks) :: fresh(i)
  {
    hide ShellImage, Paired, AllInside, AllCopied, AllCloneable, Flat;
    r := CloneAllInstrs(src.blocks, m, dst.blocks, miMap);
    if r.Err? {
      return;
    }
    if src.hasUncloneableProperty {
      return Err(UnsupportedProperty);
    }
    if !src.targetInfoCloneable {
      return Err(NoTargetInfo);
    }
  }

  method CloneMF(src: MachineFunction, values: map<GlobalValue, GlobalValue>, constMasks: set<RegMask>,
                 fixedAlign: int -> nat,
                 miMap: InstrMap?)
    returns (r: Result<MachineFunction, Error>, ghost m: Maps)
    requires src.Valid()
    modifies miMap
    ensures r.Ok? <==> FunctionCloneable(src, values)
    ensures r.Ok? ==> fresh(r.value) && m.values == values && m.constMasks == constMasks
    ensures r.Ok? ==> ShellImage(src, r.value, m, fixedAlign)
    ensures r.Ok? ==> AllCopied(src.blocks, r.value.blocks, m, old(if miMap == null then map[] else miMap.m), miMap)
    ensures r.Ok? ==> forall i | i in Flat(r.value.blocks) :: fresh(i)
  {
    hide AllCloneable, AllCopied, Flat;
    m := Maps(map[], values, constMasks);
    if src.function_ !in values {
      return Err(FunctionNotMapped), m;
    }
    var dst, maps := CloneShell(src, values, constMasks, fixedAlign);
    m := maps;
    var copied := CloneBody(src, dst, maps, fixedAlign, miMap);
    if copied.Err? {
      return Err(copied.error), m;
    }
    return Ok(dst), m;
  }

  // ---- functions of a module

  class MachineModuleInfo {
    var functions: map<GlobalValue, MachineFunction>

    constructor (functions: map<GlobalValue, MachineFunction>)
      ensures this.functions == functions
    {
      this.functions := functions;
    }
  }

  ghost predicate InstrImages(ss: seq<MachineBasicBlock>, ds: seq<MachineBasicBlock>, m: Maps)
    reads ss, ds, InstrSet(ss), InstrSet(ds)
  {
    |ds| == |ss| && forall b | 0 <= b < |ss| :: InstrsImage(ss[b].instrs, ds[b].instrs, m)
  }

  ghost predicate Cloned(src: MachineFunction, dst: MachineFunction, m: Maps, values: map<GlobalValue, GlobalValue>,
                         fixedAlign: int -> nat)
    reads src, dst, src.frameInfo, dst.frameInfo, src.blocks, dst.blocks, InstrSet(src.blocks), InstrSet(dst.blocks)
  {
    m.values == values && ShellImage(src, dst, m, fixedAlign) && InstrImages(src.blocks, dst.blocks, m)
  }

  lemma CloneableIsMapped(src: MachineFunction, values: map<GlobalValue, GlobalValue>)
    requires FunctionCloneable(src, values)
    ensures src.function_ in values
  {
  }

  lemma CopiedImages(ss: seq<MachineBasicBlock>, ds: seq<MachineBasicBlock>, m: Maps, m0: MIMap, miMap: InstrMap?)
    requires AllCopied(ss, ds, m, m0, miMap)
    ensures InstrImages(ss, ds, m)
  {
  }

  lemma CopiedLists(ss: seq<MachineBasicBlock>, ds: seq<MachineBasicBlock>, m: Maps, m0: MIMap, miMap: InstrMap?)
    requires AllCopied(ss, ds, m, m0, miMap)
    ensures |Flat(ds)| == |Flat(ss)| && AllDistinct(Flat(ds))
    ensures miMap != null ==> miMap.m == RecordedAll(m0, Flat(ss), Flat(ds))
  {
  }

  /** Clones one function of a module into the module of the function it is mapped to. */
  method CloneFunction(src: MachineFunction, values: map<GlobalValue, GlobalValue>, constMasks: set<RegMask>,
                       fixedAlign: int -> nat, dest: MachineModuleInfo, miMap: InstrMap?)
    returns (r: Result<(), Error>, ghost m: Maps)
    requires src.Valid() && (src.function_ in values ==> values[src.function_] !in dest.functions)
    modifies dest, miMap
    ensures r.Ok? <==> old(FunctionCloneable(src, values))
    ensures r.Err? ==> dest.functions == old(dest.functions)
    ensures r.Ok? ==> src.function_ in values
    ensures r.Ok? ==> dest.functions.Keys == old(dest.functions).Keys + {values[src.function_]}
    ensures r.Ok? ==>
              var f := values[src.function_];
              dest.functions == old(dest.functions)[f := dest.functions[f]]
    ensures r.Ok? ==> Cloned(src, dest.functions[values[src.function_]], m, values, fixedAlign)
    ensures r.Ok? ==> var c := dest.functions[values[src.function_]];
                      |Flat(c.blocks)| == |Flat(src.blocks)| && AllDistinct(Flat(c.blocks)) &&
                      (miMap != null ==> miMap.m == RecordedAll(old(miMap.m), Flat(src.blocks), Flat(c.blocks)))
    ensures r.Ok? ==> forall i | i in Flat(dest.functions[values[src.function_]].blocks) :: fresh(i)
  {
    hide ShellImage, AllCopied, Flat, RecordedAll, AllDistinct;
    var clone;
    clone, m := CloneMF(src, values, constMasks, fixedAlign, miMap);
    if clone.Err? {
      return Err(clone.error), m;
    }
    CopiedImages(src.blocks, clone.value.blocks, m, old(if miMap == null then map[] else miMap.m), miMap);
    CloneableIsMapped(src, values);
    CopiedLists(src.blocks, clone.value.blocks, m, old(if miMap == null then map[] else miMap.m), miMap);
    dest.functions := dest.functions[values[src.function_] := clone.value];
    return Ok(()), m;
  }
}
