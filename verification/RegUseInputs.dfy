/** Blocks that come out wrong when uses are redirected, or when one is not. */
module RegUseInputs {
  import opened Wrappers
  import opened RegLowering
  import opened RegBlocks
  import opened RegUses

  lemma OneHolder(c: nat, r: VReg)
    ensures var m: Cells := map[c := r]; m.Values == {r}
  {
    var m: Cells := map[c := r];
    assert m[c] == r;
  }

  const VALUES: Env := map[0 := [10, 11], 1 := [20, 21]]

  /** Cell 5 is written, and a read of cell 5 or 6 stands before or after. */
  function OneWrite(before: seq<Use>, after: seq<Use>): Block {
    Block(before, 1, Wide(5, 1), 0, after, map[5 := 0, 6 := 0], 3)
  }

  function OneRead(cell: nat, from: VReg): Use {
    Use(2, Wide(cell, 1), map[cell := from])
  }

  lemma OneUseProper(u: Use, next: VReg)
    requires (u == OneRead(5, 0) || u == OneRead(5, 1) || u == OneRead(6, 1)) && next >= 3
    ensures UsesProper([u], next, {0, 1}) && NextAfter([u], next) == next
    ensures UsesProper([], next, {0, 1}) && NextAfter([], next) == next
  {
    assert [u][..0] == [];
    assert NextAfter([u], next) == NextAfter([u][..0], next) + Merged(u.src);
  }

  lemma OneWriteShape(b: Block, u: Use)
    requires (u == OneRead(5, 0) || u == OneRead(5, 1) || u == OneRead(6, 1)) &&
              (b == OneWrite([u], []) || b == OneWrite([], [u]))
    ensures b.Proper() && b.Next() == 3 && b.Regs() == {0, 1} && b.Now() == map[5 := 1, 6 := 0] && b.Fits(VALUES)
  {
    hide UsesProper, NextAfter;
    OneUseProper(u, 3);
    assert b.Next() == 3 && b.Fresh() == map[5 := 1];
    OneHolder(5, 1);
    assert b.acc[5] == 0 && b.acc.Values == {0} && b.Fresh().Values == {1};
    assert b.Regs() == {0, 1};
    assert forall v | v in b.before + b.after :: v == u;
  }

  lemma Wrong(b: Block, env: Env)
    requires b.Proper() && b.Fits(env) && !b.Right(env)
    ensures !b.UsesOk()
  {
    RedirectionRightIff(b);
  }

  /** A register is read and then written. With the use in the read redirected, the read
      returns what is written after it. */
  lemma EarlierReadRedirected()
    ensures var b := OneWrite([OneRead(5, 1)], []);
            && b.Proper() && b.Fits(VALUES) && !b.UsesOk()
            && Get(Run(VALUES, b.Code()), 2) == [20, 21] && Seen(VALUES, b.acc, Wide(5, 1)) == [10, 11]
  {
    hide Block.Proper, Block.Fits, Block.UsesOk, Run;
    var u := OneRead(5, 1);
    var b := OneWrite([u], []);
    OneWriteShape(b, u);
    OneCellBefore(b, VALUES, u);
    assert u in b.before;
    Wrong(b, VALUES);
  }

  /** A use after the write that was left alone goes on reading the old value. */
  lemma LaterUseForgotten()
    ensures var b := OneWrite([], [OneRead(5, 0)]);
            && b.Proper() && b.Fits(VALUES) && !b.UsesOk()
            && Get(Run(VALUES, b.Code()), 2) == [10, 11] && b.Meant(VALUES, Wide(5, 1)) == [20, 21]
  {
    hide Block.Proper, Block.Fits, Block.UsesOk, Run;
    var u := OneRead(5, 0);
    var b := OneWrite([], [u]);
    OneWriteShape(b, u);
    OneCellAfter(b, VALUES, u);
    assert u in b.after;
    Wrong(b, VALUES);
  }

  /** Two cells hold the same register, as after it was given to two writes, and one of
      them is written. With the uses of that register redirected, a read of the other
      cell returns what was written to the first. */
  lemma SharedHolderRedirected()
    ensures var b := OneWrite([], [OneRead(6, 1)]);
            && b.Proper() && b.Fits(VALUES) && !b.UsesOk()
            && Get(Run(VALUES, b.Code()), 2) == [20, 21] && b.Meant(VALUES, Wide(6, 1)) == [10, 11]
  {
    hide Block.Proper, Block.Fits, Block.UsesOk, Run;
    var u := OneRead(6, 1);
    var b := OneWrite([], [u]);
    OneWriteShape(b, u);
    OneCellAfter(b, VALUES, u);
    assert u in b.after;
    Wrong(b, VALUES);
  }

  /** The low half of a register is written. With the use in the write redirected, the
      register reads its own undefined value, and the high half is lost. */
  lemma OwnUseRedirected()
    ensures var b := Block([], 1, Half(5, false), 2, [], map[5 := 0], 2);
            var env := map[0 := [10, 11], 1 := [20], 2 := [30, 31]];
            && b.Proper() && b.Fits(env) && !b.UsesOk()
            && HalfAt(Run(env, b.Code()), b.Now(), 11) == 31 && Written(env, 1, Half(5, false), b.acc, 11) == 11
  {
    var b := Block([], 1, Half(5, false), 2, [], map[5 := 0], 2);
    var env := map[0 := [10, 11], 1 := [20], 2 := [30, 31]];
    HalfShape(b, env);
    hide Block.Proper, Block.Fits, Run;
    BlockRun(b, env);
    assert b.Holds(env, 2) == [20, 31];
  }

  lemma HalfShape(b: Block, env: Env)
    requires b == Block([], 1, Half(5, false), 2, [], map[5 := 0], 2) &&
              env == map[0 := [10, 11], 1 := [20], 2 := [30, 31]]
    ensures b.Proper() && b.Fits(env) && b.Next() == 2 && b.Regs() == {0, 2} && b.Now() == map[5 := 2]
  {
    assert b.Next() == 2 && b.Fresh() == map[5 := 2];
    OneHolder(5, 0);
    OneHolder(5, 2);
    assert b.acc.Values == {0} && b.Fresh().Values == {2};
  }
}
