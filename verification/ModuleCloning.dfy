/** Cloning the machine functions of a whole module. */
module ModuleCloning {
  import opened Wrappers
  import opened MachineIR
  import opened Cloning
  import opened CloneMeaning

  type Functions = map<GlobalValue, MachineFunction>

  type Values = map<GlobalValue, GlobalValue>

  /** What a machine function is made of. */
  ghost function Parts(mf: MachineFunction): set<object>
    reads mf, mf.blocks
  {
    {mf, mf.frameInfo} + (set b | b in mf.blocks :: b as object) + (set i | i in InstrSet(mf.blocks) :: i as object)
  }

  lemma PartsOnly(mf: MachineFunction, dest: MachineModuleInfo, miMap: InstrMap?)
    ensures forall o | o in Parts(mf) :: allocated(o) && o != dest && o != miMap
  {
    assert forall b | b in mf.blocks :: allocated(b);
    assert forall i | i in InstrSet(mf.blocks) :: allocated(i);
  }

  /** The instructions of a function, those of its copy, and which have an operand. */
  datatype Lists = Lists(src: seq<MachineInstr>, dst: seq<MachineInstr>, withOperands: set<MachineInstr>)

  /** A function and a possible copy of it. */
  datatype Pair = Pair(src: MachineFunction, dst: MachineFunction, m: Maps, values: Values, fixedAlign: int -> nat,
                       lists: Lists) {
    ghost predicate IsClone()
      reads src, dst, src.frameInfo, dst.frameInfo, src.blocks, dst.blocks, InstrSet(src.blocks), InstrSet(dst.blocks)
    {
      Cloned(src, dst, m, values, fixedAlign) && Listed()
    }

    ghost predicate Listed()
      reads src, dst, src.blocks, dst.blocks, InstrSet(src.blocks)
    {
      && lists.src == Flat(src.blocks) && lists.dst == Flat(dst.blocks)
      && lists.withOperands == set i | i in InstrSet(src.blocks) && i.operands != []
    }

    ghost function Both(): set<object>
      reads src, dst, src.blocks, dst.blocks
    {
      Parts(src) + Parts(dst)
    }
  }

  lemma CloneIs(p: Pair)
    ensures p.IsClone() == (Cloned(p.src, p.dst, p.m, p.values, p.fixedAlign) && p.Listed())
  {
  }

  lemma {:induction false} InFlat(blocks: seq<MachineBasicBlock>, i: MachineInstr)
    ensures i in Flat(blocks) <==> i in InstrSet(blocks)
    decreases |blocks|
  {
    if blocks != [] {
      var n := |blocks| - 1;
      InFlat(blocks[..n], i);
      assert i in InstrSet(blocks) <==> i in InstrSet(blocks[..n]) || i in blocks[n].instrs;
    }
  }

  // ---- the map of instructions

  ghost predicate Entry(m: MIMap, l: Lists, k: nat) {
    && k < |l.src| == |l.dst| && (l.src[k] in m <==> l.src[k] in l.withOperands)
    && (l.src[k] in m ==> m[l.src[k]] == l.dst[k])
  }

  /** From `m` to `m'` the instructions of one more function were recorded. */
  ghost predicate Gains(m: MIMap, m': MIMap, l: Lists) {
    && |l.src| == |l.dst|
    && (forall x | x in m :: x in m' && m'[x] == m[x])
    && (forall x | x in m' && x !in m :: x in l.src)
    && (forall k | 0 <= k < |l.src| && l.src[k] !in m :: Entry(m', l, k))
  }

  /** The map covers exactly the instructions with an operand of all the functions,
      leads to the instruction at the same place of the copy, and is one to one. */
  ghost predicate MapExact(m: MIMap, pairs: seq<Pair>) {
    && (forall i, k | 0 <= i < |pairs| && 0 <= k < |pairs[i].lists.src| :: Entry(m, pairs[i].lists, k))
    && (forall x | x in m :: exists i :: 0 <= i < |pairs| && x in pairs[i].lists.src)
    && (forall x, y | x in m && y in m && m[x] == m[y] :: x == y)
  }

  lemma MapExactStep(m: MIMap, m': MIMap, pairs: seq<Pair>, q: Pair)
    requires MapExact(m, pairs) && Gains(m, m', q.lists) && AllDistinct(q.lists.dst)
    requires forall p, x | p in pairs && x in p.lists.src :: x !in q.lists.src
    requires forall x | x in m :: m[x] !in q.lists.dst
    ensures MapExact(m', pairs + [q])
  {
    var more := pairs + [q];
    assert forall i | 0 <= i < |pairs| :: pairs[i] in pairs;
    forall k | 0 <= k < |q.lists.src| ensures q.lists.src[k] !in m {
      var x := q.lists.src[k];
      assert x in q.lists.src;
      assert forall i | 0 <= i < |pairs| :: x !in pairs[i].lists.src;
    }
    forall i, k | 0 <= i < |more| && 0 <= k < |more[i].lists.src| ensures Entry(m', more[i].lists, k) {
      if i < |pairs| {
        assert pairs[i] in pairs && Entry(m, pairs[i].lists, k) && pairs[i].lists.src[k] in pairs[i].lists.src;
      }
    }
    forall x | x in m' ensures exists i :: 0 <= i < |more| && x in more[i].lists.src {
      if x in m {
        var i :| 0 <= i < |pairs| && x in pairs[i].lists.src;
        assert x in more[i].lists.src;
      } else {
        assert x in more[|pairs|].lists.src;
      }
    }
    forall x, y | x in m' && y in m' && m'[x] == m'[y] ensures x == y {
      if x !in m {
        NewEntry(m, m', q.lists, x);
      }
      if y !in m {
        NewEntry(m, m', q.lists, y);
      }
    }
  }

  lemma NewEntry(m: MIMap, m': MIMap, l: Lists, x: MachineInstr)
    requires Gains(m, m', l) && x in m' && x !in m
    ensures exists k :: 0 <= k < |l.src| && l.src[k] == x && m'[x] == l.dst[k]
  {
    var k :| 0 <= k < |l.src| && l.src[k] == x;
    assert Entry(m', l, k);
  }

  /** What a pair is does not depend on anything but its parts. */
  twostate lemma PartsDecide(p: Pair)
    requires unchanged(old(p.Both()))
    ensures p.src.Valid() == old(p.src.Valid()) && p.IsClone() == old(p.IsClone())
    ensures FunctionCloneable(p.src, p.values) == old(FunctionCloneable(p.src, p.values))
    ensures InstrSet(p.src.blocks) == old(InstrSet(p.src.blocks))
  {
    hide Cloned, FunctionCloneable, MachineFunction.Valid, Pair.Listed;
    var g, d := p.src, p.dst;
    assert g in old(p.Both()) && g.frameInfo in old(p.Both()) && d in old(p.Both()) && d.frameInfo in old(p.Both());
    assert forall b | b in g.blocks :: b in old(Parts(g));
    assert forall i | i in old(InstrSet(g.blocks)) :: i in old(Parts(g));
    assert InstrSet(g.blocks) == old(InstrSet(g.blocks));
    assert forall b | b in d.blocks :: b in old(Parts(d));
    assert forall i | i in old(InstrSet(d.blocks)) :: i in old(Parts(d));
    assert InstrSet(d.blocks) == old(InstrSet(d.blocks));
  }

  lemma GainsRecorded(m: MIMap, mf: MachineFunction, l: Lists)
    requires l.src == Flat(mf.blocks) && |l.dst| == |l.src| && mf.Valid()
    requires l.withOperands == set i | i in InstrSet(mf.blocks) && i.operands != []
    ensures Gains(m, RecordedAll(m, l.src, l.dst), l)
  {
    hide RecordedAll, Flat, AllInside, BlocksListedOnce, EdgesInside;
    RecordedExact(m, l.src, l.dst);
    forall k | 0 <= k < |l.src| && l.src[k] !in m ensures Entry(RecordedAll(m, l.src, l.dst), l, k) {
      InFlat(mf.blocks, l.src[k]);
    }
  }

  ghost function Self(mf: MachineFunction, values: Values, constMasks: set<RegMask>, fixedAlign: int -> nat): (p: Pair)
    ensures p.src == mf && p.values == values
  {
    Pair(mf, mf, Maps(map[], values, constMasks), values, fixedAlign, Lists([], [], {}))
  }

  /** A source is as it was when it was asked whether it can be cloned. */
  ghost predicate SourceKept(mf: MachineFunction, values: Values, cloneable: bool, instrs: set<MachineInstr>)
    reads mf, mf.frameInfo, mf.blocks, InstrSet(mf.blocks)
  {
    mf.Valid() && FunctionCloneable(mf, values) == cloneable && InstrSet(mf.blocks) == instrs
  }

  /** The sources, which of them can be cloned, and their instructions. */
  datatype Sources = Sources(machine: Functions, cloneable: set<GlobalValue>, instrs: map<GlobalValue,
                             set<MachineInstr>>)

  lemma KeptIs(mf: MachineFunction, values: Values, cloneable: bool, instrs: set<MachineInstr>)
    ensures SourceKept(mf, values, cloneable, instrs) ==
            (mf.Valid() && FunctionCloneable(mf, values) == cloneable && InstrSet(mf.blocks) == instrs)
  {
  }

  /** Copies a function and leaves all others, and what they are copies of, alone. */
  method CloneNext(f: GlobalValue, ghost sources: Sources, src: MachineFunction, values: Values,
                   constMasks: set<RegMask>,
                   fixedAlign: int -> nat, dest: MachineModuleInfo, miMap: InstrMap?, ghost pairs: set<Pair>)
    returns (r: Result<(), Error>, ghost q: Pair)
    requires sources.instrs.Keys == sources.machine.Keys && f in sources.machine && src == sources.machine[f] &&
              src.function_ == f
    requires f in values ==> values[f] !in dest.functions
    requires forall g | g in sources.machine ::
              SourceKept(sources.machine[g], values, g in sources.cloneable, sources.instrs[g])
    modifies dest, miMap
    ensures r.Ok? <==> f in sources.cloneable
    ensures r.Err? ==> dest.functions == old(dest.functions)
    ensures r.Ok? ==> f in values && dest.functions == old(dest.functions)[values[f] := q.dst]
    ensures r.Ok? ==> q.src == src && q.values == values && q.fixedAlign == fixedAlign && q.IsClone()
    ensures r.Ok? ==> AllDistinct(q.lists.dst) && forall i | i in q.lists.dst :: fresh(i)
    ensures r.Ok? ==> forall i | i in q.lists.src :: i in sources.instrs[f]
    ensures r.Ok? && miMap != null ==> Gains(old(miMap.m), miMap.m, q.lists)
    ensures forall p | p in pairs :: p.IsClone() == old(p.IsClone())
    ensures forall g | g in sources.machine ::
              SourceKept(sources.machine[g], values, g in sources.cloneable, sources.instrs[g])
  {
    hide Cloned, FunctionCloneable, MachineFunction.Valid, Parts, Pair.IsClone, Gains, Flat, RecordedAll, AllDistinct,
         SourceKept;
    ghost var selves := set g | g in sources.machine :: Self(sources.machine[g], values, constMasks, fixedAlign);
    forall g | g in sources.machine
      ensures var mf := sources.machine[g];
              mf.Valid() && FunctionCloneable(mf, values) == (g in sources.cloneable) &&
                  InstrSet(mf.blocks) == sources.instrs[g]
    {
      KeptIs(sources.machine[g], values, g in sources.cloneable, sources.instrs[g]);
    }
    r, q := CloneOne(src, values, constMasks, fixedAlign, dest, miMap, pairs + selves);
    forall g | g in sources.machine
      ensures SourceKept(sources.machine[g], values, g in sources.cloneable, sources.instrs[g])
    {
      assert Self(sources.machine[g], values, constMasks, fixedAlign) in selves;
      KeptIs(sources.machine[g], values, g in sources.cloneable, sources.instrs[g]);
    }
  }

  /** Copies a function and leaves all others, and what they are copies of, alone. */
  method CloneOne(src: MachineFunction, values: Values, constMasks: set<RegMask>, fixedAlign: int -> nat,
                   dest: MachineModuleInfo, miMap: InstrMap?, ghost pairs: set<Pair>)
    returns (r: Result<(), Error>, ghost q: Pair)
    requires src.Valid() && (src.function_ in values ==> values[src.function_] !in dest.functions)
    modifies dest, miMap
    ensures r.Ok? <==> old(FunctionCloneable(src, values))
    ensures r.Err? ==> dest.functions == old(dest.functions)
    ensures r.Ok? ==> src.function_ in values && dest.functions == old(dest.functions)[values[src.function_] := q.dst]
    ensures r.Ok? ==> q.src == src && q.values == values && q.fixedAlign == fixedAlign && q.IsClone()
    ensures r.Ok? ==> AllDistinct(q.lists.dst) && forall i | i in q.lists.dst :: fresh(i)
    ensures r.Ok? ==> forall i | i in q.lists.src :: i in InstrSet(src.blocks)
    ensures r.Ok? && miMap != null ==> Gains(old(miMap.m), miMap.m, q.lists)
    ensures forall p | p in pairs :: p.src.Valid() == old(p.src.Valid()) && p.IsClone() == old(p.IsClone())
    ensures forall p | p in pairs :: FunctionCloneable(p.src, p.values) == old(FunctionCloneable(p.src, p.values))
    ensures forall p | p in pairs :: InstrSet(p.src.blocks) == old(InstrSet(p.src.blocks))
  {
    hide Cloned, FunctionCloneable, MachineFunction.Valid, Parts, Pair.IsClone, Gains, Flat, RecordedAll, AllDistinct;
    ghost var others := pairs +
        {Pair(src, src, Maps(map[], values, constMasks), values, fixedAlign, Lists([], [], {}))};
    forall p | p in others ensures forall o | o in p.Both() :: allocated(o) && o != dest && o != miMap {
      PartsOnly(p.src, dest, miMap);
      PartsOnly(p.dst, dest, miMap);
    }
    ghost var m;
    r, m := CloneFunction(src, values, constMasks, fixedAlign, dest, miMap);
    forall p | p in others
      ensures p.src.Valid() == old(p.src.Valid()) && p.IsClone() == old(p.IsClone())
      ensures FunctionCloneable(p.src, p.values) == old(FunctionCloneable(p.src, p.values))
      ensures InstrSet(p.src.blocks) == old(InstrSet(p.src.blocks))
    {
      assert forall o | o in old(p.Both()) :: old(allocated(o)) && o != dest && o != miMap;
      assert unchanged(old(p.Both()));
      PartsDecide(p);
    }
    if r.Ok? {
      ghost var c := dest.functions[values[src.function_]];
      ghost var l := Lists(Flat(src.blocks), Flat(c.blocks), set i | i in InstrSet(src.blocks) && i.operands != []);
      q := Pair(src, c, m, values, fixedAlign, l);
      CloneIs(q);
      forall i | i in q.lists.src ensures i in InstrSet(src.blocks) {
        InFlat(src.blocks, i);
      }
      if miMap != null {
        GainsRecorded(old(miMap.m), src, l);
      }
    } else {
      q := Pair(src, src, m, values, fixedAlign, Lists([], [], {}));
    }
  }

  /** The copies have places of their own. */
  ghost predicate HasRoom(srcModule: seq<GlobalValue>, values: Values, dest: Functions) {
    && (forall f | f in srcModule && f in values :: values[f] !in dest)
    && (forall i, j | 0 <= i < j < |srcModule| && srcModule[i] in values && srcModule[j] in values ::
          values[srcModule[i]] != values[srcModule[j]])
  }

  ghost function Places(fs: seq<GlobalValue>, values: Values): set<GlobalValue> {
    set f | f in fs && f in values :: values[f]
  }

  /** The first `n` functions of the module have their copies in `dest`, which else is
      still `dest0`. */
  ghost predicate Placed(srcModule: seq<GlobalValue>, n: nat, machine: Functions, dest0: Functions,
                         dest: Functions, values: Values, pairs: seq<Pair>)
    requires n <= |srcModule|
  {
    && |pairs| == n
    && (forall i | 0 <= i < n ::
          var f := srcModule[i];
          f in machine && f in values && values[f] in dest && pairs[i].src == machine[f] &&
              pairs[i].dst == dest[values[f]])
    && dest.Keys == dest0.Keys + Places(srcModule[..n], values)
    && (forall f | f in dest0 :: f in dest && dest[f] == dest0[f])
  }

  lemma PlacedStart(srcModule: seq<GlobalValue>, machine: Functions, dest: Functions,
                    values: Values)
    ensures Placed(srcModule, 0, machine, dest, dest, values, [])
  {
  }

  lemma RoomLeft(srcModule: seq<GlobalValue>, n: nat, machine: Functions, dest0: Functions, dest: Functions,
                 values: Values,
                 pairs: seq<Pair>)
    requires n < |srcModule| && HasRoom(srcModule, values, dest0) &&
              Placed(srcModule, n, machine, dest0, dest, values, pairs)
    ensures srcModule[n] in values ==> values[srcModule[n]] !in dest
  {
    var f := srcModule[n];
    assert f in values ==> forall i | 0 <= i < n && srcModule[i] in values :: values[srcModule[i]] != values[f];
  }

  lemma PlacedStep(srcModule: seq<GlobalValue>, n: nat, machine: Functions, dest0: Functions,
                   dest: Functions, values: Values, pairs: seq<Pair>, p: Pair)
    requires n < |srcModule| && HasRoom(srcModule, values, dest0) &&
              Placed(srcModule, n, machine, dest0, dest, values, pairs)
    requires srcModule[n] in machine && p.src == machine[srcModule[n]]
    ensures srcModule[n] in values ==>
              Placed(srcModule, n + 1, machine, dest0, dest[values[srcModule[n]] := p.dst], values, pairs + [p])
  {
    var f := srcModule[n];
    assert srcModule[..n + 1] == srcModule[..n] + [f];
    RoomLeft(srcModule, n, machine, dest0, dest, values, pairs);
    if f in values {
      var more := dest[values[f] := p.dst];
      assert Places(srcModule[..n + 1], values) == Places(srcModule[..n], values) + {values[f]};
      forall i | 0 <= i < n
        ensures values[srcModule[i]] in more && more[values[srcModule[i]]] == dest[values[srcModule[i]]] {
        assert srcModule[i] in srcModule[..n];
      }
    }
  }

  /** No two functions share an instruction. */
  ghost predicate Apart(instrs: map<GlobalValue, set<MachineInstr>>) {
    forall f, g | f in instrs && g in instrs && f != g :: instrs[f] !! instrs[g]
  }

  /** The pairs are about the first `n` functions, and the map, if it is followed, is
      exact for them. */
  ghost predicate Tracked(srcModule: seq<GlobalValue>, n: nat, values: Values, instrs: map<GlobalValue,
                          set<MachineInstr>>,
                          pairs: seq<Pair>, m: Option<MIMap>)
    requires n <= |srcModule|
  {
    && |pairs| == n && (forall i | 0 <= i < n :: srcModule[i] in values && srcModule[i] in instrs)
    && (forall i, x | 0 <= i < n && x in pairs[i].lists.src :: x in instrs[srcModule[i]])
    && (m.Some? ==> MapExact(m.value, pairs))
  }

  lemma TrackedStart(srcModule: seq<GlobalValue>, values: Values, instrs: map<GlobalValue, set<MachineInstr>>,
                     m: Option<MIMap>)
    requires m.Some? ==> m.value == map[]
    ensures Tracked(srcModule, 0, values, instrs, [], m)
  {
  }

  lemma TrackedStep(srcModule: seq<GlobalValue>, n: nat, values: Values, dest: Functions, pairs: seq<Pair>,
                    instrs: map<GlobalValue, set<MachineInstr>>, q: Pair, m: Option<MIMap>, m': Option<MIMap>)
    requires n < |srcModule| && HasRoom(srcModule, values, dest) && Apart(instrs)
    requires Tracked(srcModule, n, values, instrs, pairs, m) && srcModule[n] in values && srcModule[n] in instrs
    requires AllDistinct(q.lists.dst) && forall x | x in q.lists.src :: x in instrs[srcModule[n]]
    requires m'.Some? ==> m.Some? && Gains(m.value, m'.value, q.lists) && forall x | x in m.value ::
              m.value[x] !in q.lists.dst
    ensures Tracked(srcModule, n + 1, values, instrs, pairs + [q], m')
  {
    hide MapExact, Gains, AllDistinct;
    forall p, x | p in pairs && x in p.lists.src ensures x !in q.lists.src {
      var i :| 0 <= i < n && pairs[i] == p;
      assert values[srcModule[i]] != values[srcModule[n]];
      assert x in instrs[srcModule[i]];
    }
    if m'.Some? {
      MapExactStep(m.value, m'.value, pairs, q);
    }
  }

  /** Copies every function of the module, or stops at the first that cannot be copied. */
  method CloneMMI(srcMMI: MachineModuleInfo, srcModule: seq<GlobalValue>, values: Values, constMasks: set<RegMask>,
                  fixedAlign: int -> nat, dest: MachineModuleInfo, miMap: InstrMap?)
    returns (r: Result<(), Error>, ghost pairs: seq<Pair>)
    requires srcMMI != dest && HasRoom(srcModule, values, dest.functions)
    requires Apart(map f | f in srcMMI.functions :: InstrSet(srcMMI.functions[f].blocks))
    requires forall f | f in srcMMI.functions :: srcMMI.functions[f].function_ == f && srcMMI.functions[f].Valid()
    modifies dest, miMap
    ensures r.Ok? <==> forall f | f in srcModule ::
              f in srcMMI.functions && old(FunctionCloneable(srcMMI.functions[f], values))
    ensures |pairs| <= |srcModule| &&
              Placed(srcModule, |pairs|, srcMMI.functions, old(dest.functions), dest.functions, values, pairs)
    ensures if r.Ok? then |pairs| == |srcModule| else
              |pairs| < |srcModule| && var f := srcModule[|pairs|];
                                       f in srcMMI.functions ==> !old(FunctionCloneable(srcMMI.functions[f], values))
    ensures forall p | p in pairs :: p.IsClone() && p.values == values && p.fixedAlign == fixedAlign
    ensures r.Ok? && miMap != null && old(miMap.m) == map[] ==> MapExact(miMap.m, pairs)
  {
    hide Cloned, FunctionCloneable, MachineFunction.Valid, Parts, Pair.IsClone, HasRoom, Placed, Tracked, Gains,
         AllDistinct, Apart,
         SourceKept;
    var machine := srcMMI.functions;
    pairs := [];
    ghost var sources := Sources(machine, set f | f in machine && FunctionCloneable(machine[f], values),
                                 map f | f in machine :: InstrSet(machine[f].blocks));
    ghost var followed := miMap != null && miMap.m == map[];
    PlacedStart(srcModule, machine, dest.functions, values);
    TrackedStart(srcModule, values, sources.instrs, if followed then Some(miMap.m) else None);
    forall f | f in machine ensures SourceKept(machine[f], values, f in sources.cloneable, sources.instrs[f]) {
      KeptIs(machine[f], values, f in sources.cloneable, sources.instrs[f]);
    }
    for n := 0 to |srcModule|
      invariant srcMMI.functions == machine
      invariant forall f | f in machine :: SourceKept(machine[f], values, f in sources.cloneable, sources.instrs[f])
      invariant forall i | 0 <= i < n :: srcModule[i] in sources.cloneable
      invariant |pairs| == n && Placed(srcModule, n, machine, old(dest.functions), dest.functions, values, pairs)
      invariant forall p | p in pairs :: p.IsClone() && p.values == values && p.fixedAlign == fixedAlign
      invariant Tracked(srcModule, n, values, sources.instrs, pairs, if followed then Some(miMap.m) else None)
    {
      var f := srcModule[n];
      if f !in machine {
        return Err(MissingFunction), pairs;
      }
      RoomLeft(srcModule, n, machine, old(dest.functions), dest.functions, values, pairs);
      ghost var before := dest.functions;
      ghost var entries := if followed then Some(miMap.m) else None;
      var copied, p := CloneNext(f, sources, machine[f], values, constMasks, fixedAlign, dest, miMap,
                                 set p | p in pairs);
      if copied.Err? {
        return copied, pairs;
      }
      PlacedStep(srcModule, n, machine, old(dest.functions), before, values, pairs, p);
      TrackedStep(srcModule, n, values, old(dest.functions), pairs, sources.instrs, p, entries,
                  if followed then Some(miMap.m) else None);
      pairs := pairs + [p];
    }
    TrackedEnd(srcModule, values, sources.instrs, pairs, if followed then Some(miMap.m) else None);
    return Ok(()), pairs;
  }

  lemma TrackedEnd(srcModule: seq<GlobalValue>, values: Values, instrs: map<GlobalValue, set<MachineInstr>>,
                   pairs: seq<Pair>,
                   m: Option<MIMap>)
    requires Tracked(srcModule, |srcModule|, values, instrs, pairs, m)
    ensures m.Some? ==> MapExact(m.value, pairs)
  {
  }

  /** Every function of the module runs in its place in the copy as it did. */
  lemma ModuleRunsAlike<S>(srcModule: seq<GlobalValue>, machine: Functions, dest0: Functions, dest: Functions,
                           values: Values,
                           pairs: seq<Pair>, addr: GlobalValue -> int, addr': GlobalValue -> int, i: nat,
                           sem: (Code, Image, S) -> (S, Next), c: Config<S>, n: nat)
    requires Placed(srcModule, |srcModule|, machine, dest0, dest, values, pairs) && Agrees(values, addr, addr')
    requires i < |srcModule| && pairs[i].IsClone() && pairs[i].values == values && pairs[i].src.Valid()
    requires CallEntriesKept(pairs[i].src.blocks, addr, addr') &&
              FrameCreatable(pairs[i].src.frameInfo, pairs[i].fixedAlign)
    requires pairs[i].src.tables == Tables([], [])
    ensures var f := srcModule[i];
            && f in machine && f in values && values[f] in dest && addr'(values[f]) == addr(f)
            && Run(ImageOf(dest[values[f]], addr'), sem, c, n) == Run(ImageOf(machine[f], addr), sem, c, n)
  {
    hide Cloned, MachineFunction.Valid, CallEntriesKept, FrameCreatable, ImageOf, Pair.Listed;
    var p := pairs[i];
    CloneRunsAlike(p.src, p.dst, p.m, values, p.fixedAlign, addr, addr', sem, c, n);
  }
}
