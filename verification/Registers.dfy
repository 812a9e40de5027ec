/** Physical registers with their sub-register and alias structure, and the
    effect of one machine instruction on a set of live registers. */
module Registers {

  type Reg = nat

  /** The queries the analysis makes of the target's register description:
      `subs[r]` are the sub-registers of `r` including `r`, `aliases[r]` all
      registers sharing a bit with `r`. */
  datatype RegInfo = RegInfo(regs: set<Reg>, subs: map<Reg, set<Reg>>, aliases: map<Reg, set<Reg>>,
                             reserved: set<Reg>) {
    ghost predicate Valid() {
      && subs.Keys == regs && aliases.Keys == regs
      && (forall r | r in regs :: r in subs[r] && subs[r] <= regs && aliases[r] <= regs)
      && (forall r, s | r in regs && s in subs[r] :: subs[s] <= subs[r])
      && (forall r, s | r in regs && s in subs[r] && r in subs[s] :: r == s)
      // a register overlaps whatever one of its parts overlaps
      && (forall d, r, s | d in regs && r in regs && s in subs[r] && s in aliases[d] :: r in aliases[d])
    }
  }

  /** `clobbers` are the registers a register mask operand does not preserve. */
  datatype MachineInstr = MachineInstr(id: nat, defs: set<Reg>, clobbers: set<Reg>, uses: set<Reg>) {
    ghost predicate Valid(ri: RegInfo)
      requires ri.Valid()
    {
      && defs <= ri.regs && clobbers <= ri.regs && uses <= ri.regs
      && (forall r, s | r in ri.regs && s in ri.subs[r] && s in clobbers :: r in clobbers)
    }
  }

  function Kill(ri: RegInfo, mi: MachineInstr): set<Reg> {
    (set d, r | d in mi.defs && d in ri.aliases && r in ri.aliases[d] :: r) + mi.clobbers
  }

  function Gen(ri: RegInfo, mi: MachineInstr): set<Reg> {
    set u, r | u in mi.uses && u in ri.subs && r in ri.subs[u] :: r
  }

  /** Removes what the instruction defines, then adds what it reads. */
  function StepBackward(ri: RegInfo, live: set<Reg>, mi: MachineInstr): set<Reg> {
    live - Kill(ri, mi) + Gen(ri, mi)
  }

  /** Something the instruction defines shares a bit with `r`, or it does not preserve `r`. */
  ghost predicate Writes(ri: RegInfo, mi: MachineInstr, r: Reg) {
    r in mi.clobbers || exists d :: d in mi.defs && d in ri.aliases && r in ri.aliases[d]
  }

  /** The instruction uses `r` or a register that `r` is a part of. */
  ghost predicate Uses(ri: RegInfo, mi: MachineInstr, r: Reg) {
    exists u :: u in mi.uses && u in ri.subs && r in ri.subs[u]
  }

  lemma KillIsWrites(ri: RegInfo, mi: MachineInstr, r: Reg)
    ensures r in Kill(ri, mi) <==> Writes(ri, mi, r)
  {
  }

  lemma GenIsUses(ri: RegInfo, mi: MachineInstr, r: Reg)
    ensures r in Gen(ri, mi) <==> Uses(ri, mi, r)
  {
  }

  /** Live before an instruction are the parts of what it uses, and what is live after it
      and neither overlaps a definition nor is clobbered. */
  lemma StepBackwardExact(ri: RegInfo, live: set<Reg>, mi: MachineInstr, r: Reg)
    requires ri.Valid() && mi.Valid(ri) && r in ri.regs
    ensures r in StepBackward(ri, live, mi) <==>
              || (exists u | u in mi.uses :: r in ri.subs[u])
              || (r in live && r !in mi.clobbers && forall d | d in mi.defs :: r !in ri.aliases[d])
  {
    KillIsWrites(ri, mi, r);
    GenIsUses(ri, mi, r);
  }

  /** The registers covered by `e`, sub-registers included. */
  function Close(ri: RegInfo, e: set<Reg>): set<Reg> {
    set s, r | s in e && s in ri.subs && r in ri.subs[s] :: r
  }

  ghost predicate IsClosed(ri: RegInfo, l: set<Reg>) {
    l <= ri.regs && forall s, r | s in l && s in ri.subs && r in ri.subs[s] :: r in l
  }

  /** Writing a part of a register writes the register. */
  lemma WritesWhole(ri: RegInfo, mi: MachineInstr, r: Reg, s: Reg)
    requires ri.Valid() && mi.Valid(ri) && r in ri.regs && s in ri.subs[r] && Writes(ri, mi, s)
    ensures Writes(ri, mi, r)
  {
    if s !in mi.clobbers {
      var d :| d in mi.defs && d in ri.aliases && s in ri.aliases[d];
      assert r in ri.aliases[d];
    }
  }

  lemma StepBackwardClosed(ri: RegInfo, l: set<Reg>, mi: MachineInstr)
    requires ri.Valid() && IsClosed(ri, l) && mi.Valid(ri)
    ensures IsClosed(ri, StepBackward(ri, l, mi))
  {
    var m := StepBackward(ri, l, mi);
    forall s, r | s in m && r in ri.subs[s] ensures r in m {
      if s in Gen(ri, mi) {
        var u :| u in mi.uses && s in ri.subs[u];
        assert r in ri.subs[u];
      } else if r in Kill(ri, mi) {
        KillIsWrites(ri, mi, r);
        WritesWhole(ri, mi, s, r);
        KillIsWrites(ri, mi, s);
      }
    }
  }

  /** A live register without a live super-register to stand for it. */
  predicate Emitted(ri: RegInfo, live: set<Reg>, r: Reg) {
    && r in live && r !in ri.reserved
    && forall s | s in live && s !in ri.reserved && s in ri.subs && r in ri.subs[s] :: s == r
  }

  function Emit(ri: RegInfo, live: set<Reg>): set<Reg> {
    set r | r in live && Emitted(ri, live, r)
  }

  /** What is stored: the unreserved live registers that are no part of another one. */
  lemma EmitExact(ri: RegInfo, live: set<Reg>, r: Reg)
    requires ri.Valid() && live <= ri.regs
    ensures r in Emit(ri, live) <==>
              && r in live - ri.reserved
              && forall s | s in live - ri.reserved && s != r :: r !in ri.subs[s]
  {
  }

  lemma {:induction false} MaximalAbove(ri: RegInfo, live: set<Reg>, r: Reg) returns (top: Reg)
    requires ri.Valid() && live <= ri.regs && r in live && r !in ri.reserved
    ensures top in Emit(ri, live) && r in ri.subs[top]
    decreases set s | s in live && r in ri.subs[s]
  {
    if s :| s in live && s !in ri.reserved && r in ri.subs[s] && s != r {
      var above, aboveS := set t | t in live && r in ri.subs[t], set t | t in live && s in ri.subs[t];
      assert r in above && r !in aboveS;
      assert forall t | t in aboveS :: ri.subs[s] <= ri.subs[t];
      assert aboveS < above;
      top := MaximalAbove(ri, live, s);
    } else {
      top := r;
    }
  }

  /** Storing only the maximal unreserved registers loses nothing but the
      reserved ones that no unreserved register covers. */
  lemma CloseEmit(ri: RegInfo, live: set<Reg>)
    requires ri.Valid() && live <= ri.regs
    ensures Close(ri, Emit(ri, live)) == Close(ri, live - ri.reserved)
  {
    forall r | r in Close(ri, live - ri.reserved) ensures r in Close(ri, Emit(ri, live)) {
      var s :| s in live - ri.reserved && r in ri.subs[s];
      var top := MaximalAbove(ri, live, s);
      assert r in ri.subs[top];
    }
  }

  /** The stored registers can be read off the closed set, so two stored lists
      differ exactly when the sets they stand for differ. */
  lemma EmitOfClose(ri: RegInfo, live: set<Reg>)
    requires ri.Valid() && live <= ri.regs
    ensures Emit(ri, live) == Emit(ri, Close(ri, Emit(ri, live)))
  {
    var c := Close(ri, Emit(ri, live));
    forall r ensures r in Emit(ri, live) <==> r in Emit(ri, c) {
      if r in Emit(ri, live) {
        assert r in ri.subs[r];
        forall s | s in c && s !in ri.reserved && r in ri.subs[s] ensures s == r {
          var top :| top in Emit(ri, live) && s in ri.subs[top];
          assert r in ri.subs[top];
        }
      }
      if r in Emit(ri, c) {
        var top :| top in Emit(ri, live) && r in ri.subs[top];
        assert top in ri.subs[top];
      }
    }
  }
}
