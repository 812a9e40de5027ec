/** The parts of machine functions that cloning copies. */
module MachineIR {
  import opened Wrappers

  type GlobalValue = nat

  class RegMask {
    const bits: seq<nat>

    constructor (bits: seq<nat>)
      ensures this.bits == bits
    {
      this.bits := bits;
    }
  }

  datatype Operand =
    | RegisterOp(reg: nat, isDef: bool, subReg: nat)
    | ImmOp(imm: int)
    | BlockOp(mbb: MachineBasicBlock)
    | RegMaskOp(mask: RegMask)
    | GlobalOp(gv: GlobalValue, offset: int, targetFlags: nat)
    | OtherOp(kind: nat, payload: int)

  datatype PseudoSource =
    | Stack | GOT | JumpTable | ConstantPool
    | FixedStack(frameIndex: int)
    | GlobalValueCallEntry(gv: GlobalValue)
    | ExternalSymbolCallEntry(symbol: string)
    | TargetCustom(kind: nat)

  datatype MemOperand = MemOperand(pseudo: Option<PseudoSource>, access: nat)

  class MachineInstr {
    const opcode: nat
    const debugLoc: nat
    var flags: nat
    var asmPrinterFlags: nat
    var operands: seq<Operand>
    var memRefs: seq<MemOperand>

    constructor (opcode: nat, debugLoc: nat)
      ensures this.opcode == opcode && this.debugLoc == debugLoc
      ensures operands == [] && memRefs == [] && flags == 0 && asmPrinterFlags == 0
    {
      this.opcode, this.debugLoc := opcode, debugLoc;
      flags, asmPrinterFlags, operands, memRefs := 0, 0, [], [];
    }
  }

  datatype EHInfo = EHInfo(isEHPad: bool, isScopeEntry: bool, isCatchretTarget: bool, isFuncletEntry: bool,
                           isCleanupFuncletEntry: bool)

  datatype SectionInfo = SectionInfo(isBegin: bool, isEnd: bool, id: nat)

  datatype BlockAttrs = BlockAttrs(
    callFrameSize: nat, addressTakenIRBlock: Option<nat>, machineBlockAddressTaken: bool, labelMustBeEmitted: bool,
    alignment: nat, maxBytesForAlignment: nat, eh: EHInfo, section: SectionInfo, isInlineAsmBrIndirectTarget: bool,
    irrLoopHeaderWeight: Option<nat>)

  const DEFAULT_ATTRS := BlockAttrs(0, None, false, false, 0, 0, EHInfo(false, false, false, false, false),
                                    SectionInfo(false, false, 0), false, None)

  class MachineBasicBlock {
    var attrs: BlockAttrs
    var successors: seq<(MachineBasicBlock, nat)>
    var liveIns: seq<nat>
    var instrs: seq<MachineInstr>

    constructor ()
      ensures attrs == DEFAULT_ATTRS && successors == [] && liveIns == [] && instrs == []
    {
      attrs, successors, liveIns, instrs := DEFAULT_ATTRS, [], [], [];
    }
  }

  datatype StackObject = StackObject(
    size: nat, align: nat, offset: int, isImmutable: bool, isSpillSlot: bool, isStatepointSpillSlot: bool,
    stackID: nat, alloca: Option<nat>, isAliased: bool, isZExt: bool, isSExt: bool, sspLayout: nat)

  /** Fixed objects come first, so that index -1 is the last of them. */
  class MachineFrameInfo {
    var objects: seq<StackObject>
    var numFixedObjects: nat
    var savePoint: MachineBasicBlock?
    var restorePoint: MachineBasicBlock?

    constructor ()
      ensures objects == [] && numFixedObjects == 0 && savePoint == null && restorePoint == null
    {
      objects, numFixedObjects, savePoint, restorePoint := [], 0, null, null;
    }

    predicate Valid()
      reads this
    {
      numFixedObjects <= |objects|
    }

    predicate HasIndex(fi: int)
      reads this
    {
      0 <= fi + numFixedObjects < |objects|
    }

    function Object(fi: int): StackObject
      requires HasIndex(fi)
      reads this
    {
      objects[fi + numFixedObjects]
    }

    method CreateStackObject(size: nat, align: nat, isSpillSlot: bool, alloca: Option<nat>, stackID: nat)
      returns (fi: int)
      requires Valid()
      modifies this`objects
      ensures objects == old(objects) +
                [StackObject(size, align, 0, false, isSpillSlot, false, stackID, alloca, !isSpillSlot, false, false, 0)]
      ensures fi == |old(objects)| - numFixedObjects
    {
      objects := objects + [StackObject(size, align, 0, false, isSpillSlot, false, stackID, alloca, !isSpillSlot, false,
                                        false, 0)];
      fi := |objects| - numFixedObjects - 1;
    }

    method CreateVariableSizedObject(align: nat, alloca: Option<nat>) returns (fi: int)
      requires Valid()
      modifies this`objects
      ensures objects == old(objects) +
                [StackObject(0, align, 0, false, false, false, 0, alloca, true, false, false, 0)]
      ensures fi == |old(objects)| - numFixedObjects
    {
      objects := objects + [StackObject(0, align, 0, false, false, false, 0, alloca, true, false, false, 0)];
      fi := |objects| - numFixedObjects - 1;
    }

    /** Inserts in front; `align` is what the target derives from the offset. */
    method CreateFixedObject(size: nat, offset: int, isImmutable: bool, isAliased: bool, align: nat) returns (fi: int)
      requires Valid()
      modifies this`objects, this`numFixedObjects
      ensures objects == [StackObject(size, align, offset, isImmutable, false, false, 0, None, isAliased, false, false,
                                      0)] + old(objects)
      ensures numFixedObjects == old(numFixedObjects) + 1 && fi + numFixedObjects == 0
    {
      objects := [StackObject(size, align, offset, isImmutable, false, false, 0, None, isAliased, false, false, 0)] +
          objects;
      numFixedObjects := numFixedObjects + 1;
      fi := 0 - numFixedObjects;
    }

    method SetObject(fi: int, o: StackObject)
      requires Valid() && HasIndex(fi)
      modifies this`objects
      ensures objects == old(objects)[fi + numFixedObjects := o]
    {
      objects := objects[fi + numFixedObjects := o];
    }
  }

  /** `hints` are the allocation hints with their hint type. */
  datatype VirtReg = VirtReg(name: string, regClass: nat, ty: Option<nat>, hintType: nat, hints: seq<nat>)

  /** The targets of indirect branches, and the constants instructions load. */
  datatype Tables = Tables(jumpTables: seq<seq<MachineBasicBlock>>, constants: seq<nat>)

  class MachineFunction {
    const function_: GlobalValue
    const functionNumber: nat
    var blocks: seq<MachineBasicBlock>
    var virtRegs: seq<VirtReg>
    const frameInfo: MachineFrameInfo
    var tables: Tables
    /** Frame instructions, landing pads, call-site tables and the like. */
    var hasUncloneableProperty: bool
    /** The target can copy its own function information. */
    var targetInfoCloneable: bool

    constructor (f: GlobalValue, number: nat, frame: MachineFrameInfo)
      ensures function_ == f && functionNumber == number && frameInfo == frame && blocks == [] && virtRegs == []
      ensures tables == Tables([], [])
      ensures !hasUncloneableProperty && targetInfoCloneable
    {
      function_, functionNumber, frameInfo := f, number, frame;
      blocks, virtRegs, tables, hasUncloneableProperty, targetInfoCloneable := [], [], Tables([], []), false, true;
    }

    /** Blocks and instructions are listed once, and refer only to blocks of the
        function. */
    ghost predicate Valid()
      reads this, frameInfo, blocks, InstrSet(blocks)
    {
      && frameInfo.Valid()
      && (frameInfo.savePoint != null ==> frameInfo.savePoint in blocks)
      && (frameInfo.restorePoint != null ==> frameInfo.restorePoint in blocks)
      && BlocksListedOnce(blocks) && EdgesInside(blocks)
      && AllInside(blocks)
      && AllDistinct(Flat(blocks))
    }
  }

  ghost predicate BlocksListedOnce(blocks: seq<MachineBasicBlock>) {
    forall i, j | 0 <= i < j < |blocks| :: blocks[i] != blocks[j]
  }

  ghost predicate EdgesInside(blocks: seq<MachineBasicBlock>)
    reads blocks`successors
  {
    forall b, k | 0 <= b < |blocks| && 0 <= k < |blocks[b].successors| :: blocks[b].successors[k].0 in blocks
  }

  ghost predicate OperandsInside(i: MachineInstr, blocks: seq<MachineBasicBlock>)
    reads i
  {
    forall k | 0 <= k < |i.operands| :: i.operands[k].BlockOp? ==> i.operands[k].mbb in blocks
  }

  ghost predicate AllInside(blocks: seq<MachineBasicBlock>)
    reads blocks, InstrSet(blocks)
  {
    forall b, k | 0 <= b < |blocks| && 0 <= k < |blocks[b].instrs| :: OperandsInside(blocks[b].instrs[k], blocks)
  }

  /** The instructions of all blocks, in order. */
  ghost function Flat(blocks: seq<MachineBasicBlock>): seq<MachineInstr>
    reads blocks
  {
    if blocks == [] then [] else Flat(blocks[..|blocks| - 1]) + blocks[|blocks| - 1].instrs
  }

  ghost function InstrSet(blocks: seq<MachineBasicBlock>): set<MachineInstr>
    reads blocks
  {
    set b, i | 0 <= b < |blocks| && 0 <= i < |blocks[b].instrs| :: blocks[b].instrs[i]
  }

  ghost predicate AllDistinct(d: seq<MachineInstr>) {
    forall i, j | 0 <= i < j < |d| :: d[i] != d[j]
  }

  class InstrMap {
    var m: map<MachineInstr, MachineInstr>

    constructor ()
      ensures m == map[]
    {
      m := map[];
    }
  }
}
