/** Splitting a basic block where the set of active lanes can change, and the paths
    that single lanes take through the pieces. */
module VectorSplit {
  import opened Registers

  /** An instruction with what the splitting asks about it. */
  datatype Instr = Instr(mi: MachineInstr, isVector: bool, writesExec: bool)

  /** The pieces are the parts 0 to n-1 of the block, in order, part 0 being the block
      taken on entry; the other three hold no instructions. */
  datatype Piece = Part(k: nat) | EntryNotTaken | ExitTaken | ExitNotTaken

  type Edge = (Piece, Piece)

  // ---- where parts begin, and what leads where

  /** A new part begins with the instruction, and other lanes may skip it. */
  predicate Splits(code: seq<Instr>, i: nat)
    requires i < |code|
  {
    code[i].isVector && (code[i].writesExec || (i > 0 && !code[i - 1].isVector))
  }

  /** A new part begins with the instruction, and all lanes come together there. */
  predicate Joins(code: seq<Instr>, i: nat)
    requires i < |code|
  {
    !code[i].isVector && (i == 0 || code[i - 1].isVector)
  }

  /** For each part of the first `i` instructions, whether lanes come together at its
      beginning. */
  ghost function JoinsOf(code: seq<Instr>, i: nat): (joins: seq<bool>)
    requires i <= |code|
    ensures |joins| >= 1
  {
    if i == 0 then [false]
    else
      var before := JoinsOf(code, i - 1);
      if Splits(code, i - 1) then before + [false] else if Joins(code, i - 1) then before + [true] else before
  }

  /** Where a lane goes that skips part `k`: to the next part where lanes join, or
      out of the block. */
  ghost function Next(joins: seq<bool>, k: nat): Piece
    decreases |joins| - k
  {
    if k >= |joins| then ExitNotTaken else if joins[k] then Part(k) else Next(joins, k + 1)
  }

  /** Every part leads to the next one, and past it if lanes may skip it. */
  ghost predicate Leads(joins: seq<bool>, a: Piece, b: Piece) {
    match a
    case Part(k) =>
      if k + 1 < |joins| then b == Part(k + 1) || (!joins[k + 1] && b == Next(joins, k + 1))
      else k + 1 == |joins| && b == ExitTaken
    case EntryNotTaken => b == Next(joins, 1)
    case _ => false
  }

  // ---- the splitting

  /** The pieces that wait to be led to the next part where lanes join. */
  ghost predicate Hangs(joins: seq<bool>, a: Piece) {
    match a
    case Part(k) => k + 1 < |joins| && !joins[k + 1] && Next(joins, k + 1) == ExitNotTaken
    case EntryNotTaken => Next(joins, 1) == ExitNotTaken
    case _ => false
  }

  ghost predicate Settled(joins: seq<bool>, a: Piece, b: Piece) {
    Leads(joins, a, b) && b.Part?
  }

  ghost predicate SplitSoFar(joins: seq<bool>, edges: set<Edge>, hanging: set<Piece>, current: nat) {
    && |joins| == current + 1
    && (forall a, b :: (a, b) in edges <==> Settled(joins, a, b))
    && (forall a :: a in hanging <==> Hangs(joins, a))
  }

  lemma {:induction false} NextOfLonger(joins: seq<bool>, j: bool, k: nat)
    requires k <= |joins|
    ensures Next(joins + [j], k) == if Next(joins, k).Part? then Next(joins, k) else if j then Part(|joins|)
              else ExitNotTaken
    ensures Next(joins, k).Part? ==> k <= Next(joins, k).k < |joins|
    ensures Next(joins, k).Part? || Next(joins, k).ExitNotTaken?
    decreases |joins| - k
  {
    if k < |joins| {
      NextOfLonger(joins, j, k + 1);
    }
  }

  lemma SplitStep(joins: seq<bool>, edges: set<Edge>, hanging: set<Piece>, current: nat)
    requires SplitSoFar(joins, edges, hanging, current)
    ensures SplitSoFar(joins + [false], edges + {(Part(current), Part(current + 1))}, hanging +
                       {Part(current)}, current + 1)
  {
    var longer := joins + [false];
    forall k: nat | k <= |joins| {
      NextOfLonger(joins, false, k);
    }
  }

  lemma JoinStep(joins: seq<bool>, edges: set<Edge>, hanging: set<Piece>, current: nat)
    requires SplitSoFar(joins, edges, hanging, current)
    ensures SplitSoFar(joins + [true], edges + {(Part(current), Part(current + 1))} +
                       (set a | a in hanging :: (a, Part(current + 1))), {}, current + 1)
  {
    var longer, joined := joins + [true], set a | a in hanging :: (a, Part(current + 1));
    forall k: nat | k <= |joins| {
      NextOfLonger(joins, true, k);
    }
    forall a, b
      ensures Settled(longer, a, b) <==>
                Settled(joins, a, b) || (a, b) == (Part(current), Part(current + 1)) || (a, b) in joined {
      assert (a, b) in joined <==> a in hanging && b == Part(current + 1);
    }
  }

  ghost function Concat(parts: seq<seq<Instr>>): seq<Instr> {
    if parts == [] then [] else Concat(parts[..|parts| - 1]) + parts[|parts| - 1]
  }

  lemma ConcatPush(parts: seq<seq<Instr>>, p: seq<Instr>)
    ensures Concat(parts + [p]) == Concat(parts) + p
  {
    assert (parts + [p])[..|parts|] == parts;
  }

  lemma ConcatGrow(parts: seq<seq<Instr>>, i: Instr)
    requires parts != []
    ensures var n := |parts| - 1; Concat(parts[n := parts[n] + [i]]) == Concat(parts) + [i]
  {
    var n := |parts| - 1;
    assert parts[n := parts[n] + [i]][..n] == parts[..n];
  }

  /** A part is all vector instructions, or all scalar ones if lanes join there. No
      vector instruction after the first of a part changes the active lanes; scalar
      ones, which all lanes go through, may. */
  ghost predicate Uniform(part: seq<Instr>, join: bool, first: bool) {
    && (forall x | 0 <= x < |part| :: part[x].isVector == !join)
    && (forall x | 0 <= x < |part| && part[x].isVector && part[x].writesExec :: x == 0 && !first)
    && (!first ==> part != [])
  }

  /** The parts of the first `i` instructions. */
  ghost function PartsOf(code: seq<Instr>, i: nat): (parts: seq<seq<Instr>>)
    requires i <= |code|
    ensures parts != []
  {
    if i == 0 then [[]]
    else
      var before := PartsOf(code, i - 1);
      var begun := if Splits(code, i - 1) || Joins(code, i - 1) then before + [[]] else before;
      begun[|begun| - 1 := begun[|begun| - 1] + [code[i - 1]]]
  }

  /** The parts make up the block in order. */
  ghost predicate PartsSoFar(code: seq<Instr>, i: nat, parts: seq<seq<Instr>>)
    requires i <= |code|
  {
    var joins := JoinsOf(code, i);
    && |parts| == |joins| && Concat(parts) == code[..i]
    && (forall k | 0 <= k < |parts| :: Uniform(parts[k], joins[k], k == 0))
    && (i > 0 ==> parts[|parts| - 1] != [] && code[i - 1].isVector == !joins[|parts| - 1])
  }

  lemma PartsStep(code: seq<Instr>, i: nat, parts: seq<seq<Instr>>)
    requires i < |code| && PartsSoFar(code, i, parts)
    ensures var begun := if Splits(code, i) || Joins(code, i) then parts + [[]] else parts;
            var n := |begun| - 1;
            PartsSoFar(code, i + 1, begun[n := begun[n] + [code[i]]])
  {
    var begun := if Splits(code, i) || Joins(code, i) then parts + [[]] else parts;
    var n := |begun| - 1;
    ConcatPush(parts, []);
    ConcatGrow(begun, code[i]);
    assert code[..i + 1] == code[..i] + [code[i]];
    JoinsStep(code, i);
    SplitStart(code);
    hide JoinsOf, Concat, PartsOf, SplitSoFar;
  }

  lemma {:induction false} PartsAreUniform(code: seq<Instr>, i: nat)
    requires i <= |code|
    ensures PartsSoFar(code, i, PartsOf(code, i))
    decreases i
  {
    if i > 0 {
      PartsAreUniform(code, i - 1);
      PartsStep(code, i - 1, PartsOf(code, i - 1));
    }
  }

  /** The place in the block where part `k` begins. */
  ghost function Begins(parts: seq<seq<Instr>>, k: nat): nat
    requires k <= |parts|
  {
    |Concat(parts[..k])|
  }

  lemma BeginsStep(code: seq<Instr>, i: nat, k: nat)
    requires i < |code|
    ensures |PartsOf(code, i + 1)| == |PartsOf(code, i)| + if Splits(code, i) || Joins(code, i) then 1 else 0
    ensures k < |PartsOf(code, i + 1)| ==>
              Begins(PartsOf(code, i + 1), k) == if k < |PartsOf(code, i)| then Begins(PartsOf(code, i), k) else i
  {
    hide Concat;
    var parts, more := PartsOf(code, i), PartsOf(code, i + 1);
    PartsAreUniform(code, i);
    if k < |more| {
      assert more[..k] == parts[..k];
      assert parts[..|parts|] == parts;
    }
  }

  /** The first part is empty only where a new one must begin before any instruction: at a
      scalar one, and at a vector one that writes the mask of active lanes. */
  lemma {:induction false} FirstPartExact(code: seq<Instr>, i: nat)
    requires i <= |code|
    ensures PartsOf(code, i)[0] == [] <==> i == 0 || !code[0].isVector || code[0].writesExec
    decreases i
  {
    if i > 0 {
      FirstPartExact(code, i - 1);
      PartsAreUniform(code, i - 1);
    }
  }

  lemma {:induction false} BeginsBelow(code: seq<Instr>, i: nat, k: nat)
    requires i <= |code| && k < |PartsOf(code, i)|
    ensures Begins(PartsOf(code, i), k) <= i && (i > 0 ==> Begins(PartsOf(code, i), k) < i)
    decreases i
  {
    if i == 0 {
      CutsNone(code);
    } else {
      BeginsStep(code, i - 1, k);
      if k < |PartsOf(code, i - 1)| {
        BeginsBelow(code, i - 1, k);
      }
    }
  }

  lemma CutsNone(code: seq<Instr>)
    ensures PartsOf(code, 0) == [[]] && Begins(PartsOf(code, 0), 0) == 0
  {
  }

  /** A part other than the first begins there. */
  ghost predicate CutAt(parts: seq<seq<Instr>>, x: nat) {
    exists k: nat :: 0 < k < |parts| && Begins(parts, k) == x
  }

  lemma CutStep(code: seq<Instr>, i: nat, x: nat)
    requires i < |code| && 0 < x <= i
    ensures CutAt(PartsOf(code, i + 1), x) <==>
              if x < i then CutAt(PartsOf(code, i), x) else Splits(code, i) || Joins(code, i)
  {
    hide PartsOf, Begins, Splits, Joins;
    var parts, more := PartsOf(code, i), PartsOf(code, i + 1);
    BeginsStep(code, i, 0);
    if CutAt(more, x) {
      var k: nat :| 0 < k < |more| && Begins(more, k) == x;
      BeginsStep(code, i, k);
      if k < |parts| {
        BeginsBelow(code, i, k);
      }
    }
    if x < i && CutAt(parts, x) {
      var k: nat :| 0 < k < |parts| && Begins(parts, k) == x;
      BeginsStep(code, i, k);
      assert Begins(more, k) == x;
    }
    if x == i && (Splits(code, i) || Joins(code, i)) {
      BeginsStep(code, i, |parts|);
      assert Begins(more, |parts|) == x;
    }
  }

  /** A part ends only where it must: where vector and scalar instructions meet, and before
      a vector instruction that writes the mask of active lanes. */
  lemma {:induction false} CutsExact(code: seq<Instr>, i: nat, x: nat)
    requires 0 < x < i <= |code|
    ensures (exists k: nat :: 0 < k < |PartsOf(code, i)| && Begins(PartsOf(code, i), k) == x) <==>
              code[x].isVector != code[x - 1].isVector || (code[x].isVector && code[x].writesExec)
    decreases i
  {
    hide PartsOf, Begins;
    CutStep(code, i - 1, x);
    if x < i - 1 {
      CutsExact(code, i - 1, x);
    }
    assert CutAt(PartsOf(code, i), x) <==> exists k: nat ::
        0 < k < |PartsOf(code, i)| && Begins(PartsOf(code, i), k) == x;
  }

  /** The parts lie one after the other in the block. */
  lemma {:induction false} PartAt(parts: seq<seq<Instr>>, k: nat, j: nat)
    requires k < |parts| && j < |parts[k]|
    ensures Begins(parts, k) + j < |Concat(parts)| && Concat(parts)[Begins(parts, k) + j] == parts[k][j]
    decreases |parts|
  {
    var n := |parts| - 1;
    if k < n {
      PartAt(parts[..n], k, j);
      assert parts[..n][..k] == parts[..k];
    }
  }

  /** The pieces of a basic block, and exactly the edges that lanes can take. */
  method SplitBlock(code: seq<Instr>) returns (parts: seq<seq<Instr>>, edges: set<Edge>)
    ensures parts == PartsOf(code, |code|) && PartsSoFar(code, |code|, parts)
    ensures forall a, b :: (a, b) in edges <==> Leads(JoinsOf(code, |code|), a, b)
  {
    parts, edges := [[]], {};
    var hanging: set<Piece> := {EntryNotTaken};
    SplitStart(code);
    hide SplitSoFar, JoinsOf;
    for i := 0 to |code|
      invariant parts == PartsOf(code, i)
      invariant |parts| == |JoinsOf(code, i)| && SplitSoFar(JoinsOf(code, i), edges, hanging, |parts| - 1)
    {
      var isFormerScalar := i > 0 && !code[i - 1].isVector;
      var current := |parts| - 1;
      JoinsStep(code, i);
      if code[i].isVector && (code[i].writesExec || isFormerScalar) {
        SplitStep(JoinsOf(code, i), edges, hanging, current);
        edges := edges + {(Part(current), Part(current + 1))};
        hanging := hanging + {Part(current)};
        parts := parts + [[]];
      } else if !code[i].isVector && !isFormerScalar {
        JoinStep(JoinsOf(code, i), edges, hanging, current);
        edges := edges + {(Part(current), Part(current + 1))} + (set a | a in hanging :: (a, Part(current + 1)));
        hanging := {};
        parts := parts + [[]];
      }
      parts := parts[|parts| - 1 := parts[|parts| - 1] + [code[i]]];
    }
    PartsAreUniform(code, |code|);
    SplitEnd(JoinsOf(code, |code|), edges, hanging);
    edges := edges + {(Part(|parts| - 1), ExitTaken)} + (set a | a in hanging :: (a, ExitNotTaken));
  }

  lemma SplitStart(code: seq<Instr>)
    ensures JoinsOf(code, 0) == [false] && SplitSoFar(JoinsOf(code, 0), {}, {EntryNotTaken}, 0)
  {
  }

  lemma JoinsStep(code: seq<Instr>, i: nat)
    requires i < |code|
    ensures JoinsOf(code, i + 1) == if Splits(code, i) then JoinsOf(code, i) + [false]
                                    else if Joins(code, i) then JoinsOf(code, i) + [true] else JoinsOf(code, i)
  {
  }

  lemma SplitEnd(joins: seq<bool>, edges: set<Edge>, hanging: set<Piece>)
    requires joins != [] && SplitSoFar(joins, edges, hanging, |joins| - 1)
    ensures
      var leaving := {(Part(|joins| - 1), ExitTaken)} + (set a | a in hanging :: (a, ExitNotTaken));
      forall a, b :: (a, b) in edges + leaving <==> Leads(joins, a, b)
  {
    var left := set a | a in hanging :: (a, ExitNotTaken);
    forall k: nat | k <= |joins| {
      NextOfLonger(joins, false, k);
    }
    forall a, b ensures (a, b) in left <==> a in hanging && b == ExitNotTaken {
    }
  }

  // ---- the paths of lanes

  /** What a lane may do at part `k`, having been active at the part before or not:
      it executes all parts where lanes join, and in between none after one it has
      dropped out of. */
  predicate Allowed(join: bool, before: bool, now: bool) {
    if join then now else now ==> before
  }

  /** Which of the parts from `k` on a lane executes. */
  ghost predicate Lane(joins: seq<bool>, k: nat, active: seq<bool>)
    decreases |active|
  {
    && k + |active| == |joins| && active != []
    && (|active| > 1 ==> Allowed(joins[k + 1], active[0], active[1]) && Lane(joins, k + 1, active[1..]))
  }

  /** The pieces the lane goes through after part `k`. */
  ghost function After(k: nat, active: seq<bool>): (path: seq<Piece>)
    requires active != []
    ensures path != []
    decreases |active|
  {
    if |active| == 1 then [if active[0] then ExitTaken else ExitNotTaken]
    else (if active[1] then [Part(k + 1)] else []) + After(k + 1, active[1..])
  }

  /** All the pieces a lane goes through. */
  ghost function LanePath(active: seq<bool>): seq<Piece>
    requires active != []
  {
    [if active[0] then Part(0) else EntryNotTaken] + After(0, active)
  }

  ghost predicate IsPath(joins: seq<bool>, path: seq<Piece>)
    decreases |path|
  {
    |path| > 1 ==> Leads(joins, path[0], path[1]) && IsPath(joins, path[1..])
  }

  /** Where a lane that has been at `a` goes from part `k` on. */
  ghost predicate Stands(joins: seq<bool>, k: nat, a: Piece, active: bool) {
    if active then a == Part(k) else Leads(joins, a, Next(joins, k + 1))
  }

  lemma {:induction false} AfterIsPath(joins: seq<bool>, k: nat, a: Piece, active: seq<bool>)
    requires Lane(joins, k, active) && Stands(joins, k, a, active[0])
    ensures IsPath(joins, [a] + After(k, active))
    decreases |active|
  {
    var rest := After(k, active);
    if |active| > 1 {
      var next := if active[1] then Part(k + 1) else a;
      AfterIsPath(joins, k + 1, next, active[1..]);
      if active[1] {
        assert ([a] + rest)[1..] == [next] + After(k + 1, active[1..]);
        assert Leads(joins, a, Part(k + 1));
      } else {
        assert rest == After(k + 1, active[1..]);
      }
    } else {
      assert ([a] + rest)[1..] == rest;
    }
  }

  /** Whatever a lane does, it goes along a path of the pieces. */
  lemma LanesFollowPaths(joins: seq<bool>, active: seq<bool>)
    requires Lane(joins, 0, active)
    ensures IsPath(joins, LanePath(active))
  {
    AfterIsPath(joins, 0, if active[0] then Part(0) else EntryNotTaken, active);
  }

  /** The path leads on from where the lane stands, to an exit. */
  ghost predicate Leaves(joins: seq<bool>, k: nat, now: bool, path: seq<Piece>) {
    && path != [] && IsPath(joins, path) && path[|path| - 1] in {ExitTaken, ExitNotTaken}
    && if now then Leads(joins, Part(k), path[0]) else path[0] == Next(joins, k + 1)
  }

  lemma ExitsEnd(joins: seq<bool>, path: seq<Piece>)
    requires path != [] && IsPath(joins, path) && path[0] in {ExitTaken, ExitNotTaken}
    ensures |path| == 1
  {
  }

  lemma {:induction false} PathAfter(joins: seq<bool>, k: nat, now: bool, path: seq<Piece>) returns (active: seq<bool>)
    requires k < |joins| && Leaves(joins, k, now, path)
    ensures Lane(joins, k, active) && active[0] == now && path == After(k, active)
    decreases |joins| - k
  {
    if k + 1 == |joins| {
      active := [now];
      ExitsEnd(joins, path);
    } else {
      NextOfLonger(joins, false, k + 2);
      assert Next(joins, k + 1) == if joins[k + 1] then Part(k + 1) else Next(joins, k + 2);
      var goes := path[0] == Part(k + 1);
      var rest := if goes then path[1..] else path;
      assert goes ==> |path| > 1;
      var tail := PathAfter(joins, k + 1, goes, rest);
      active := [now] + tail;
      assert active[1..] == tail && active[1] == goes;
    }
  }

  /** Every path from an entry to an exit is what some lane does. */
  lemma PathsAreLanes(joins: seq<bool>, path: seq<Piece>) returns (active: seq<bool>)
    requires joins != [] && path != [] && IsPath(joins, path)
    requires path[0] in {Part(0), EntryNotTaken} && path[|path| - 1] in {ExitTaken, ExitNotTaken}
    ensures Lane(joins, 0, active) && LanePath(active) == path
  {
    active := PathAfter(joins, 0, path[0] == Part(0), path[1..]);
  }
}
