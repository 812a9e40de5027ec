/** Walking over the uses of the registers that a lowered write has replaced. */
module RegWalks {
  import opened Wrappers
  import opened RegLowering
  import opened RegBlocks
  import opened RegUses

  /** The uses a walk reaches: of a cell in a read before or after the write, given by the
      number of the read, and in the write of a half itself. */
  datatype Walk = Walk(before: (nat, nat) -> bool, own: bool, after: (nat, nat) -> bool)

  const EVERYTHING: Walk := Walk((i, c) => true, true, (i, c) => true)

  /** What a use of a cell names: the holder from before the write, or the new one. */
  ghost function Named(b: Block, c: nat, reached: bool): VReg
    requires c in b.acc && c in b.Now()
  {
    if reached then b.Now()[c] else b.acc[c]
  }

  ghost predicate UseNamed(b: Block, u: Use, c: nat, reached: bool) {
    c in b.acc && c in b.Now() && c in u.from && u.from[c] == Named(b, c, reached)
  }

  /** The block after the walk, the code of which named the old holders. Every cell has a
      register of its own, so a use of a register is a use of its cell. */
  ghost predicate Walked(b: Block, w: Walk) {
    && b.Proper()
    && (forall c, d | c in b.acc && d in b.acc && b.acc[c] == b.acc[d] :: c == d)
    && (forall i, c | 0 <= i < |b.before| && b.before[i].src.Touches(c) ::
          UseNamed(b, b.before[i], c, w.before(i, c)))
    && (forall i, c | 0 <= i < |b.after| && b.after[i].src.Touches(c) :: UseNamed(b, b.after[i], c, w.after(i, c)))
    && (b.dest.Half? ==> b.own == if w.own then b.Next() else b.acc[b.dest.cell])
  }

  /** A write gives the cell another register. Writing the holder of a cell back does not. */
  ghost predicate Moved(b: Block, c: nat) {
    c in b.Fresh() && (c in b.acc ==> b.Fresh()[c] != b.acc[c])
  }

  /** A half that is not what it was before the write. */
  ghost predicate Replaced(b: Block, p: nat) {
    Moved(b, p / 2) && (b.dest.Half? ==> Covers(b.dest, p))
  }

  ghost predicate BeforesRight(b: Block, w: Walk) {
    forall i, c | 0 <= i < |b.before| && b.before[i].src.Touches(c) && Moved(b, c) :: !w.before(i, c)
  }

  ghost predicate AftersRight(b: Block, w: Walk) {
    forall i: nat, k: nat | i < |b.after| && k < b.after[i].src.Size() :: LaterRight(b, w, i, k)
  }

  /** No use that stands before the new value is reached, every later one of a replaced
      half is. */
  ghost predicate WalkRight(b: Block, w: Walk) {
    !(b.dest.Half? && w.own) && BeforesRight(b, w) && AftersRight(b, w)
  }

  ghost predicate LaterRight(b: Block, w: Walk, i: nat, k: nat)
    requires i < |b.after|
  {
    var p := b.after[i].src.Start() + k;
    Replaced(b, p) ==> w.after(i, p / 2)
  }

  /** A touched cell has a half that is read. */
  lemma HalfTouched(reg: PhysReg, c: nat) returns (k: nat)
    requires reg.Touches(c)
    ensures k < reg.Size() && (reg.Start() + k) / 2 == c
  {
    k := if reg.Wide? then 2 * (c - reg.first) else 0;
  }

  /** The new holders are those of the touched cells, new themselves but for one cell. */
  lemma HolderNow(b: Block, c: nat)
    requires b.Proper() && c in b.acc
    ensures c in b.Now() && b.Now()[c] == (if Moved(b, c) then b.Fresh()[c] else b.acc[c])
    ensures b.dest.Half? ==> b.dest.cell in b.acc && b.Next() != b.acc[b.dest.cell]
    ensures b.dest.Half? ==> (Moved(b, c) <==> c == b.dest.cell)
  {
    hide UsesProper;
    if b.dest.Half? {
      assert b.dest.Touches(b.dest.cell);
      assert b.acc[b.dest.cell] in b.acc.Values;
    }
  }

  lemma OwnIff(b: Block, w: Walk)
    requires Walked(b, w)
    ensures b.OwnOk() <==> !(b.dest.Half? && w.own)
  {
    hide UsesProper;
    if b.dest.Half? {
      assert b.dest.Touches(b.dest.cell);
      HolderNow(b, b.dest.cell);
    }
  }

  lemma BeforeIff(b: Block, w: Walk, i: nat, k: nat)
    requires Walked(b, w) && i < |b.before| && k < b.before[i].src.Size()
    ensures var c := (b.before[i].src.Start() + k) / 2;
            b.BeforeOk(b.before[i], k) <==> (Moved(b, c) ==> !w.before(i, c))
  {
    hide Block.Proper, Block.Now, Moved;
    var u := b.before[i];
    var c := (u.src.Start() + k) / 2;
    TouchedHalf(u.src, k);
    assert UseNamed(b, u, c, w.before(i, c));
    HolderNow(b, c);
    if Moved(b, c) {
      MovedHolder(b, c);
    }
  }

  lemma MovedHolder(b: Block, c: nat)
    requires Moved(b, c) && c in b.acc
    ensures b.Fresh()[c] != b.acc[c]
  {
  }

  /** The holder a use names has the half meant, or the use is one to be reached. */
  lemma AgreeIff(b: Block, p: nat, reached: bool)
    requires b.Proper() && p / 2 in b.acc && p / 2 in b.Now()
    ensures b.Agree(Named(b, p / 2, reached), b.Now()[p / 2], p % 2) <==> (Replaced(b, p) ==> reached)
  {
    var c := p / 2;
    HolderNow(b, c);
    hide Block.Proper, Block.Now, Moved;
    if Moved(b, c) {
      MovedHolder(b, c);
    }
  }

  lemma AfterIff(b: Block, w: Walk, i: nat, k: nat)
    requires Walked(b, w) && i < |b.after| && k < b.after[i].src.Size()
    ensures Accessible(b.dest, b.acc.Keys)
    ensures b.AfterOk(b.after[i], k) <==> LaterRight(b, w, i, k)
  {
    assert Accessible(b.dest, b.acc.Keys);
    hide Block.Proper, Block.Now, Replaced, Accessible, Block.Agree;
    var u := b.after[i];
    var p := u.src.Start() + k;
    TouchedHalf(u.src, k);
    assert UseNamed(b, u, p / 2, w.after(i, p / 2));
    AgreeIff(b, p, w.after(i, p / 2));
  }

  lemma BeforesIff(b: Block, w: Walk)
    requires Walked(b, w)
    ensures (forall u, k: nat | u in b.before && k < u.src.Size() :: b.BeforeOk(u, k)) <==> BeforesRight(b, w)
  {
    hide Block.Proper, Block.BeforeOk, Moved, Walked;
    forall i: nat, k: nat | i < |b.before| && k < b.before[i].src.Size()
      ensures var c := (b.before[i].src.Start() + k) / 2;
              b.BeforeOk(b.before[i], k) <==> (Moved(b, c) ==> !w.before(i, c))
    {
      BeforeIff(b, w, i, k);
    }
    if forall u, k: nat | u in b.before && k < u.src.Size() :: b.BeforeOk(u, k) {
      forall i: nat, c: nat | i < |b.before| && b.before[i].src.Touches(c) && Moved(b, c) ensures !w.before(i, c) {
        var k := HalfTouched(b.before[i].src, c);
        assert b.BeforeOk(b.before[i], k);
      }
    }
    if BeforesRight(b, w) {
      forall u, k: nat | u in b.before && k < u.src.Size() ensures b.BeforeOk(u, k) {
        var i :| 0 <= i < |b.before| && b.before[i] == u;
        TouchedHalf(u.src, k);
      }
    }
  }

  lemma AftersIff(b: Block, w: Walk)
    requires Walked(b, w)
    ensures Accessible(b.dest, b.acc.Keys)
    ensures (forall u, k: nat | u in b.after && k < u.src.Size() :: b.AfterOk(u, k)) <==> AftersRight(b, w)
  {
    assert Accessible(b.dest, b.acc.Keys);
    hide Block.Proper, Block.AfterOk, LaterRight, Walked, Accessible;
    forall i: nat, k: nat | i < |b.after| && k < b.after[i].src.Size()
      ensures b.AfterOk(b.after[i], k) <==> LaterRight(b, w, i, k)
    {
      AfterIff(b, w, i, k);
    }
    if AftersRight(b, w) {
      forall u, k: nat | u in b.after && k < u.src.Size() ensures b.AfterOk(u, k) {
        var i :| 0 <= i < |b.after| && b.after[i] == u;
        assert LaterRight(b, w, i, k);
      }
    }
  }

  /** The block is right for all values exactly when the walk reaches no use in a read
      before the write or in the write, and each later one of a half that was replaced. */
  lemma WalkRightIff(b: Block, w: Walk)
    requires Walked(b, w)
    ensures (forall env | b.Fits(env) :: b.Right(env)) <==> WalkRight(b, w)
  {
    assert Accessible(b.dest, b.acc.Keys);
    OwnIff(b, w);
    BeforesIff(b, w);
    AftersIff(b, w);
    hide Block.Proper, Block.OwnOk, Block.BeforeOk, Block.AfterOk, Block.Fits, Block.Right, BeforesRight, AftersRight;
    RedirectionRightIff(b);
  }

  /** A walk that reaches every use is right for all values exactly when no half is written
      and nothing before the write reads a cell that is given another register. */
  lemma EveryUseReachedIff(b: Block)
    requires Walked(b, EVERYTHING)
    ensures (forall env | b.Fits(env) :: b.Right(env)) <==>
              !b.dest.Half? && forall u, c | u in b.before && u.src.Touches(c) :: !Moved(b, c)
  {
    hide Block.Proper, Block.Fits, Block.Right, Moved, Walked;
    WalkRightIff(b, EVERYTHING);
    if WalkRight(b, EVERYTHING) {
      forall u, c: nat | u in b.before && u.src.Touches(c) ensures !Moved(b, c) {
        var i :| 0 <= i < |b.before| && b.before[i] == u;
      }
    }
  }
}
