/** Building the vector control-flow graph of a machine function. */
module VectorBuild {
  import opened Registers
  import opened Dataflow
  import opened VectorCfg
  import opened VectorSplit

  /** A basic block; the function is entered at the first one. */
  datatype BasicBlock = BasicBlock(code: seq<Instr>, succs: seq<nat>, isReturn: bool)

  type Function = seq<BasicBlock>

  predicate SuccsInside(mf: Function) {
    forall m, k | 0 <= m < |mf| && 0 <= k < |mf[m].succs| :: mf[m].succs[k] < |mf|
  }

  datatype Node = FunctionEntry | FunctionExit | In(mbb: nat, piece: Piece)

  // ---- what is built

  ghost function Parts(b: BasicBlock): (parts: seq<seq<Instr>>)
    ensures parts != []
  {
    PartsOf(b.code, |b.code|)
  }

  function InnerNodes(m: nat, n: nat): (nodes: seq<Node>)
    ensures |nodes| == if n <= 1 then 0 else n - 1
    ensures forall i | 0 <= i < |nodes| :: nodes[i] == In(m, Part(i + 1))
  {
    if n <= 1 then [] else InnerNodes(m, n - 1) + [In(m, Part(n - 1))]
  }

  /** The nodes of a basic block with `n` parts. */
  function LocalNodes(m: nat, n: nat): seq<Node> {
    [In(m, Part(0)), In(m, EntryNotTaken), In(m, ExitTaken), In(m, ExitNotTaken)] + InnerNodes(m, n)
  }

  /** The nodes of the first `n` basic blocks, after the two of the function. */
  ghost function NodesOf(mf: Function, n: nat): seq<Node>
    requires n <= |mf|
  {
    if n == 0 then [FunctionEntry, FunctionExit] else NodesOf(mf, n - 1) + LocalNodes(n - 1, |Parts(mf[n - 1])|)
  }

  ghost predicate IsNode(mf: Function, n: nat, a: Node)
    requires n <= |mf|
  {
    a.In? ==> a.mbb < n && (a.piece.Part? ==> a.piece.k < |Parts(mf[a.mbb])|)
  }

  ghost predicate IsLocal(m: nat, n: nat, a: Node) {
    a.In? && a.mbb == m && (a.piece.Part? ==> a.piece.k < n)
  }

  ghost predicate Distinct(nodes: seq<Node>) {
    forall i, j | 0 <= i < j < |nodes| :: nodes[i] != nodes[j]
  }

  ghost predicate ListsNodes(mf: Function, n: nat, nodes: seq<Node>)
    requires n <= |mf|
  {
    Distinct(nodes) && forall a :: a in nodes <==> IsNode(mf, n, a)
  }

  ghost predicate ListsLocal(m: nat, n: nat, nodes: seq<Node>) {
    Distinct(nodes) && forall a :: a in nodes <==> IsLocal(m, n, a)
  }

  lemma LocalNodesExact(m: nat, n: nat)
    requires n >= 1
    ensures ListsLocal(m, n, LocalNodes(m, n))
  {
    var l := LocalNodes(m, n);
    assert forall i | 4 <= i < |l| :: l[i] == In(m, Part(i - 3));
    forall i | 0 <= i < |l| ensures IsLocal(m, n, l[i]) {
    }
    forall a | IsLocal(m, n, a) ensures a in l {
      match a.piece
      case Part(k) => assert l[if k == 0 then 0 else k + 3] == a;
      case EntryNotTaken => assert l[1] == a;
      case ExitTaken => assert l[2] == a;
      case ExitNotTaken => assert l[3] == a;
    }
  }

  lemma NodesStep(mf: Function, n: nat, before: seq<Node>, local: seq<Node>)
    requires n < |mf| && ListsNodes(mf, n, before) && ListsLocal(n, |Parts(mf[n])|, local)
    ensures ListsNodes(mf, n + 1, before + local)
  {
    hide Parts;
    forall i, j | 0 <= i < j < |before + local| ensures (before + local)[i] != (before + local)[j] {
      if i < |before| <= j {
        assert before[i] in before && local[j - |before|] in local;
      }
    }
    forall a ensures a in before + local <==> IsNode(mf, n + 1, a) {
      assert a in before + local <==> a in before || a in local;
      assert IsNode(mf, n + 1, a) <==> IsNode(mf, n, a) || IsLocal(n, |Parts(mf[n])|, a);
    }
  }

  /** Every piece of every basic block is listed once. */
  lemma {:induction false} NodesExact(mf: Function, n: nat)
    requires n <= |mf|
    ensures ListsNodes(mf, n, NodesOf(mf, n))
    decreases n
  {
    hide ListsNodes, ListsLocal, LocalNodes, Parts;
    if n == 0 {
      FunctionNodes(mf);
    } else {
      NodesExact(mf, n - 1);
      LocalNodesExact(n - 1, |Parts(mf[n - 1])|);
      NodesStep(mf, n - 1, NodesOf(mf, n - 1), LocalNodes(n - 1, |Parts(mf[n - 1])|));
    }
  }

  lemma FunctionNodes(mf: Function)
    ensures ListsNodes(mf, 0, NodesOf(mf, 0))
  {
    forall a | IsNode(mf, 0, a) ensures a in [FunctionEntry, FunctionExit] {
      assert a == FunctionEntry || a == FunctionExit;
    }
  }

  function Mis(part: seq<Instr>): (code: seq<MachineInstr>)
    ensures |code| == |part| && forall k | 0 <= k < |part| :: code[k] == part[k].mi
  {
    if part == [] then [] else Mis(part[..|part| - 1]) + [part[|part| - 1].mi]
  }

  ghost function CodeAt(mf: Function, a: Node): seq<MachineInstr> {
    if a.In? && a.piece.Part? && a.mbb < |mf| &&
        a.piece.k < |Parts(mf[a.mbb])| then Mis(Parts(mf[a.mbb])[a.piece.k]) else []
  }

  ghost predicate LeadsInside(mf: Function, a: Node, b: Node) {
    a.In? && b.In? && a.mbb == b.mbb < |mf| && Leads(JoinsOf(mf[a.mbb].code, |mf[a.mbb].code|), a.piece, b.piece)
  }

  /** What linking `m` adds for its successor `s`. */
  function Onward(m: nat, s: nat): set<(Node, Node)> {
    {(In(m, ExitTaken), In(s, Part(0))), (In(m, ExitNotTaken), In(s, EntryNotTaken))}
  }

  /** And for its predecessor `p`, the second edge the wrong way round. */
  function FromAndBack(p: nat, m: nat): set<(Node, Node)> {
    {(In(p, ExitTaken), In(m, Part(0))), (In(m, EntryNotTaken), In(p, ExitNotTaken))}
  }

  /** The edges added when the basic block `m` is linked. */
  ghost predicate LinksAt(mf: Function, m: nat, a: Node, b: Node)
    requires m < |mf|
  {
    || (m == 0 && a == FunctionEntry && b in {In(m, Part(0)), In(m, EntryNotTaken)})
    || (mf[m].isReturn && b == FunctionExit && a in {In(m, ExitTaken), In(m, ExitNotTaken)})
    || (exists s | s in mf[m].succs :: (a, b) in Onward(m, s))
    || (exists p | 0 <= p < |mf| && m in mf[p].succs :: (a, b) in FromAndBack(p, m))
  }

  ghost predicate Links(mf: Function, a: Node, b: Node) {
    exists m | 0 <= m < |mf| :: LinksAt(mf, m, a, b)
  }

  /** The edges between basic blocks that control can take. */
  ghost predicate Forward(mf: Function, a: Node, b: Node) {
    || (mf != [] && a == FunctionEntry && b in {In(0, Part(0)), In(0, EntryNotTaken)})
    || (a.In? && a.mbb < |mf| && mf[a.mbb].isReturn && b == FunctionExit && a.piece in {ExitTaken, ExitNotTaken})
    || (a.In? && b.In? && a.mbb < |mf| && b.mbb in mf[a.mbb].succs &&
        (a.piece, b.piece) in {(ExitTaken, Part(0)), (ExitNotTaken, EntryNotTaken)})
  }

  /** The edges from where a block is entered back to where its predecessors are left. */
  ghost predicate Backward(mf: Function, a: Node, b: Node) {
    a.In? && b.In? && b.mbb < |mf| && a.mbb in mf[b.mbb].succs && a.piece == EntryNotTaken && b.piece == ExitNotTaken
  }

  /** Linking adds the edges control can take, and for every edge between basic
      blocks one that goes back. */
  lemma LinksExact(mf: Function, a: Node, b: Node)
    requires SuccsInside(mf)
    ensures Links(mf, a, b) <==> Forward(mf, a, b) || Backward(mf, a, b)
  {
    if Forward(mf, a, b) {
      assert LinksAt(mf, if a.In? then a.mbb else 0, a, b);
    }
    if Backward(mf, a, b) {
      assert LinksAt(mf, a.mbb, a, b);
    }
  }

  ghost predicate HasEdge(mf: Function, a: Node, b: Node) {
    LeadsInside(mf, a, b) || Links(mf, a, b)
  }

  // ---- blocks

  ghost predicate Blank(b: VectorMBB)
    reads b
  {
    b.predecessors == {} && b.successors == {} && b.liveIns == []
  }

  ghost predicate NewBlocks(bs: seq<VectorMBB>)
    reads bs
  {
    (forall i, j | 0 <= i < j < |bs| :: bs[i] != bs[j]) && forall i | 0 <= i < |bs| :: Blank(bs[i])
  }

  function PieceCode(parts: seq<seq<Instr>>, a: Node): seq<MachineInstr> {
    if a.In? && a.piece.Part? && a.piece.k < |parts| then Mis(parts[a.piece.k]) else []
  }

  /** A block for each of the nodes. */
  method BuildPieces(nodes: seq<Node>, parts: seq<seq<Instr>>) returns (bs: seq<VectorMBB>)
    ensures |bs| == |nodes| && NewBlocks(bs)
    ensures forall i | 0 <= i < |bs| :: fresh(bs[i]) && bs[i].instructions == PieceCode(parts, nodes[i])
  {
    hide PieceCode;
    bs := [];
    for i := 0 to |nodes|
      invariant |bs| == i && NewBlocks(bs)
      invariant forall j | 0 <= j < i :: fresh(bs[j]) && bs[j].instructions == PieceCode(parts, nodes[j])
    {
      var b := new VectorMBB(PieceCode(parts, nodes[i]));
      bs := bs + [b];
    }
  }

  ghost predicate InsideUpTo(mf: Function, n: nat, a: Node, b: Node) {
    LeadsInside(mf, a, b) && a.In? && a.mbb < n
  }

  /** The basic blocks before `n` are built. */
  ghost predicate Built(mf: Function, n: nat, nodes: seq<Node>, blocks: seq<VectorMBB>, mbbs: map<nat, seq<VectorMBB>>,
                        edges: set<(Node, Node)>)
    requires n <= |mf|
    reads blocks
  {
    && nodes == NodesOf(mf, n) && |blocks| == |nodes| && NewBlocks(blocks)
    && (forall i | 0 <= i < |blocks| :: blocks[i].instructions == CodeAt(mf, nodes[i]))
    && (forall a, b :: (a, b) in edges <==> InsideUpTo(mf, n, a, b))
    && Grouped(blocks, mbbs)
  }

  /** The blocks but the first two are grouped by basic block. */
  ghost predicate Grouped(blocks: seq<VectorMBB>, mbbs: map<nat, seq<VectorMBB>>) {
    && |blocks| >= 2
    && (forall m, i | m in mbbs && 0 <= i < |mbbs[m]| :: mbbs[m][i] in blocks)
    && (forall b | b in blocks[2..] :: exists m | m in mbbs :: b in mbbs[m])
  }

  lemma GroupedStep(blocks: seq<VectorMBB>, mbbs: map<nat, seq<VectorMBB>>, m: nat, bs: seq<VectorMBB>)
    requires Grouped(blocks, mbbs) && m !in mbbs
    ensures Grouped(blocks + bs, mbbs[m := bs])
  {
    var more := mbbs[m := bs];
    forall b | b in (blocks + bs)[2..] ensures exists k | k in more :: b in more[k] {
      if b in blocks[2..] {
        var k :| k in mbbs && b in mbbs[k];
        assert b in more[k];
      } else {
        assert b in more[m];
      }
    }
  }

  lemma NewBlocksJoin(blocks: seq<VectorMBB>, bs: seq<VectorMBB>)
    requires NewBlocks(blocks) && NewBlocks(bs) && forall b | b in bs :: b !in blocks
    ensures NewBlocks(blocks + bs)
  {
    forall i, j | 0 <= i < j < |blocks + bs| ensures (blocks + bs)[i] != (blocks + bs)[j] {
      if i < |blocks| <= j {
        assert blocks[i] in blocks && bs[j - |blocks|] in bs;
      }
    }
  }

  lemma CodeStep(mf: Function, n: nat, nodes: seq<Node>, blocks: seq<VectorMBB>, local: seq<Node>, bs: seq<VectorMBB>)
    requires n < |mf| && |blocks| == |nodes| && |bs| == |local| && local == LocalNodes(n, |Parts(mf[n])|)
    requires forall i | 0 <= i < |blocks| :: blocks[i].instructions == CodeAt(mf, nodes[i])
    requires forall i | 0 <= i < |bs| :: bs[i].instructions == PieceCode(Parts(mf[n]), local[i])
    ensures forall i | 0 <= i < |blocks + bs| :: (blocks + bs)[i].instructions == CodeAt(mf, (nodes + local)[i])
  {
    hide LocalNodes, Parts, Mis;
    LocalNodesExact(n, |Parts(mf[n])|);
    forall i | 0 <= i < |bs| ensures bs[i].instructions == CodeAt(mf, local[i]) {
      assert local[i] in local;
    }
  }

  /** Builds the pieces of one more basic block, and the edges inside it. */
  method BuildNext(mf: Function, n: nat, nodes: seq<Node>, blocks: seq<VectorMBB>, mbbs: map<nat, seq<VectorMBB>>,
                   edges: set<(Node, Node)>)
    returns (nodes': seq<Node>, blocks': seq<VectorMBB>, mbbs': map<nat, seq<VectorMBB>>, edges': set<(Node, Node)>)
    requires n < |mf| && n !in mbbs && Built(mf, n, nodes, blocks, mbbs, edges)
    ensures mbbs'.Keys == mbbs.Keys + {n} && Built(mf, n + 1, nodes', blocks', mbbs', edges')
    ensures blocks <= blocks' && forall i | |blocks| <= i < |blocks'| :: fresh(blocks'[i])
  {
    hide Leads, JoinsOf, LocalNodes, CodeAt, PieceCode, Grouped, InsideUpTo;
    var parts, es := SplitBlock(mf[n].code);
    var local := LocalNodes(n, |parts|);
    var bs := BuildPieces(local, parts);
    GroupedStep(blocks, mbbs, n, bs);
    var inside := set e | e in es :: (In(n, e.0), In(n, e.1));
    InsideStep(mf, n, edges, es, inside);
    CodeStep(mf, n, nodes, blocks, local, bs);
    NewBlocksJoin(blocks, bs);
    nodes', blocks', mbbs', edges' := nodes + local, blocks + bs, mbbs[n := bs], edges + inside;
  }

  lemma BuiltStart(mf: Function, entry: VectorMBB, exit: VectorMBB)
    requires Blank(entry) && Blank(exit) && entry != exit && entry.instructions == [] == exit.instructions
    ensures Built(mf, 0, [FunctionEntry, FunctionExit], [entry, exit], map[], {})
  {
    hide Leads, JoinsOf, Mis;
    assert [entry, exit][2..] == [];
  }

  method BuildEnds(ghost mf: Function) returns (blocks: seq<VectorMBB>)
    ensures Built(mf, 0, [FunctionEntry, FunctionExit], blocks, map[], {}) && forall i | 0 <= i < |blocks| ::
              fresh(blocks[i])
  {
    var entry := new VectorMBB([]);
    var exit := new VectorMBB([]);
    blocks := [entry, exit];
    BuiltStart(mf, entry, exit);
  }

  /** Builds the pieces of all basic blocks. */
  method BuildBlocks(mf: Function)
    returns (nodes: seq<Node>, blocks: seq<VectorMBB>, mbbs: map<nat, seq<VectorMBB>>, edges: set<(Node, Node)>)
    ensures Built(mf, |mf|, nodes, blocks, mbbs, edges) && forall i | 0 <= i < |blocks| :: fresh(blocks[i])
  {
    hide Built;
    blocks := BuildEnds(mf);
    nodes, mbbs, edges := [FunctionEntry, FunctionExit], map[], {};
    for n := 0 to |mf|
      invariant Built(mf, n, nodes, blocks, mbbs, edges)
      invariant forall m: nat | m in mbbs :: m < n
      invariant forall i | 0 <= i < |blocks| :: fresh(blocks[i])
    {
      nodes, blocks, mbbs, edges := BuildNext(mf, n, nodes, blocks, mbbs, edges);
    }
  }

  lemma InsideStep(mf: Function, n: nat, edges: set<(Node, Node)>, es: set<VectorSplit.Edge>, inside: set<(Node, Node)>)
    requires n < |mf| && inside == set e | e in es :: (In(n, e.0), In(n, e.1))
    requires forall a, b :: (a, b) in edges <==> InsideUpTo(mf, n, a, b)
    requires forall a, b :: (a, b) in es <==> Leads(JoinsOf(mf[n].code, |mf[n].code|), a, b)
    ensures forall a, b :: (a, b) in edges + inside <==> InsideUpTo(mf, n + 1, a, b)
  {
    forall a: Node, b: Node
      ensures (a, b) in inside <==>
                a.In? && b.In? && a.mbb == n == b.mbb && Leads(JoinsOf(mf[n].code, |mf[n].code|), a.piece, b.piece)
    {
      if a.In? && b.In? && a.mbb == n == b.mbb && (a.piece, b.piece) in es {
        var e := (a.piece, b.piece);
        assert (In(n, e.0), In(n, e.1)) in inside;
      }
    }
  }

  // ---- edges

  /** The edges added when the first `n` basic blocks are linked. */
  ghost predicate LinksUpTo(mf: Function, n: nat, a: Node, b: Node)
    requires n <= |mf|
  {
    exists m | 0 <= m < n :: LinksAt(mf, m, a, b)
  }

  method LinkSuccs(mf: Function, m: nat) returns (links: set<(Node, Node)>)
    requires m < |mf|
    ensures forall a, b :: (a, b) in links <==> exists s | s in mf[m].succs :: (a, b) in Onward(m, s)
  {
    links := {};
    for k := 0 to |mf[m].succs|
      invariant forall a, b :: (a, b) in links <==> exists s | s in mf[m].succs[..k] :: (a, b) in Onward(m, s)
    {
      var s := mf[m].succs[k];
      assert mf[m].succs[..k + 1] == mf[m].succs[..k] + [s];
      links := links + Onward(m, s);
    }
    assert mf[m].succs[..|mf[m].succs|] == mf[m].succs;
  }

  /** The not-taken entry is made to lead to the exits of the predecessors. */
  method LinkPreds(mf: Function, m: nat) returns (links: set<(Node, Node)>)
    requires m < |mf|
    ensures forall a, b :: (a, b) in links <==>
              exists p | 0 <= p < |mf| && m in mf[p].succs :: (a, b) in FromAndBack(p, m)
  {
    links := {};
    for p := 0 to |mf|
      invariant forall a, b :: (a, b) in links <==>
                exists q | 0 <= q < p && m in mf[q].succs :: (a, b) in FromAndBack(q, m)
    {
      if m in mf[p].succs {
        links := links + FromAndBack(p, m);
      }
    }
  }

  method LinkBlocks(mf: Function) returns (links: set<(Node, Node)>)
    ensures forall a, b :: (a, b) in links <==> Links(mf, a, b)
  {
    links := {};
    for m := 0 to |mf|
      invariant forall a, b :: (a, b) in links <==> LinksUpTo(mf, m, a, b)
    {
      var here: set<(Node, Node)> := {};
      if m == 0 {
        here := here + {(FunctionEntry, In(m, Part(0))), (FunctionEntry, In(m, EntryNotTaken))};
      }
      if mf[m].isReturn {
        here := here + {(In(m, ExitTaken), FunctionExit), (In(m, ExitNotTaken), FunctionExit)};
      }
      var succs := LinkSuccs(mf, m);
      var preds := LinkPreds(mf, m);
      here := here + succs + preds;
      assert forall a, b :: (a, b) in here <==> LinksAt(mf, m, a, b);
      assert forall a, b :: LinksUpTo(mf, m + 1, a, b) <==> LinksUpTo(mf, m, a, b) || LinksAt(mf, m, a, b);
      links := links + here;
    }
  }

  ghost function SuccBlocks(blockOf: map<Node, VectorMBB>, edges: set<(Node, Node)>, a: Node): set<VectorMBB> {
    set b | b in blockOf && (a, b) in edges :: blockOf[b]
  }

  ghost function Reversed(edges: set<(Node, Node)>): set<(Node, Node)> {
    set e | e in edges :: (e.1, e.0)
  }

  /** The edges from and to a node are those of its block. */
  ghost predicate EdgesRecorded(blockOf: map<Node, VectorMBB>, edges: set<(Node, Node)>)
    reads set a | a in blockOf :: blockOf[a]
  {
    forall a | a in blockOf ::
      blockOf[a].successors == SuccBlocks(blockOf, edges, a) &&
          blockOf[a].predecessors == SuccBlocks(blockOf, Reversed(edges), a)
  }

  /** One more edge is one more block at either end. */
  lemma RecordStep(blockOf: map<Node, VectorMBB>, edges: set<(Node, Node)>, a: Node, b: Node)
    requires a in blockOf && b in blockOf
    ensures forall c | c in blockOf ::
              SuccBlocks(blockOf, edges + {(a, b)}, c) == SuccBlocks(blockOf, edges, c) + if c == a then {blockOf[b]}
                  else {}
    ensures forall c | c in blockOf ::
              SuccBlocks(blockOf, Reversed(edges + {(a, b)}), c) ==
              SuccBlocks(blockOf, Reversed(edges), c) + if c == b then {blockOf[a]} else {}
  {
    hide SuccBlocks;
    ReversedStep(edges, (a, b));
    SuccBlocksStep(blockOf, edges, a, b);
    SuccBlocksStep(blockOf, Reversed(edges), b, a);
  }

  method AddEdge(blockOf: map<Node, VectorMBB>, ghost edges: set<(Node, Node)>, a: Node, b: Node,
                 s: VectorMBB, t: VectorMBB)
    requires forall c, d | c in blockOf && d in blockOf && blockOf[c] == blockOf[d] :: c == d
    requires a in blockOf && b in blockOf && blockOf[a] == s && blockOf[b] == t && EdgesRecorded(blockOf, edges)
    modifies s`successors, t`predecessors
    ensures EdgesRecorded(blockOf, edges + {(a, b)})
  {
    hide SuccBlocks, Reversed;
    RecordStep(blockOf, edges, a, b);
    if b == FunctionExit {
      t.AddPredecessorBlock(s);
    } else {
      s.AddSuccessorBlock(t);
    }
  }

  method AddEdges(blockOf: map<Node, VectorMBB>, edges: set<(Node, Node)>)
    requires forall a, b | a in blockOf && b in blockOf && blockOf[a] == blockOf[b] :: a == b
    requires forall a, b | (a, b) in edges :: a in blockOf && b in blockOf
    requires forall a | a in blockOf :: blockOf[a].successors == {} == blockOf[a].predecessors
    modifies (set a | a in blockOf :: blockOf[a])`successors, (set a | a in blockOf :: blockOf[a])`predecessors
    ensures EdgesRecorded(blockOf, edges)
  {
    var todo := edges;
    assert EdgesRecorded(blockOf, edges - todo);
    hide EdgesRecorded;
    while todo != {}
      invariant todo <= edges
      invariant EdgesRecorded(blockOf, edges - todo)
      decreases todo
    {
      var e :| e in todo;
      assert (e.0, e.1) in edges;
      AddEdge(blockOf, edges - todo, e.0, e.1, blockOf[e.0], blockOf[e.1]);
      assert edges - (todo - {e}) == edges - todo + {(e.0, e.1)};
      todo := todo - {e};
    }
    assert edges - todo == edges;
  }

  lemma ReversedStep(edges: set<(Node, Node)>, e: (Node, Node))
    ensures Reversed(edges + {(e.0, e.1)}) == Reversed(edges) + {(e.1, e.0)}
  {
    forall p | p in Reversed(edges) + {(e.1, e.0)} ensures p in Reversed(edges + {(e.0, e.1)}) {
      assert (p.1, p.0) in edges + {(e.0, e.1)};
    }
  }

  lemma SuccBlocksStep(blockOf: map<Node, VectorMBB>, edges: set<(Node, Node)>, a: Node, b: Node)
    requires a in blockOf && b in blockOf
    ensures SuccBlocks(blockOf, edges + {(a, b)}, a) == SuccBlocks(blockOf, edges, a) + {blockOf[b]}
    ensures forall c | c != a :: SuccBlocks(blockOf, edges + {(a, b)}, c) == SuccBlocks(blockOf, edges, c)
  {
  }

  // ---- the graph of a function

  ghost function CodesOf(mf: Function, nodes: seq<Node>): (codes: seq<seq<MachineInstr>>)
    ensures |codes| == |nodes| && forall i | 0 <= i < |nodes| :: codes[i] == CodeAt(mf, nodes[i])
  {
    if nodes == [] then [] else CodesOf(mf, nodes[..|nodes| - 1]) + [CodeAt(mf, nodes[|nodes| - 1])]
  }

  ghost function SuccsOf(mf: Function, nodes: seq<Node>, n: nat): (succs: seq<set<nat>>)
    requires n <= |nodes|
    ensures |succs| == n && forall i | 0 <= i < n ::
              succs[i] == set j: nat | j < |nodes| && HasEdge(mf, nodes[i], nodes[j])
  {
    if n == 0 then [] else SuccsOf(mf, nodes, n - 1) + [set j: nat | j < |nodes| && HasEdge(mf, nodes[n - 1], nodes[j])]
  }

  /** The graph liveness is about: the pieces of all basic blocks and their edges. */
  ghost function FunctionGraph(ri: RegInfo, mf: Function): Graph {
    var nodes := NodesOf(mf, |mf|);
    Graph(ri, CodesOf(mf, nodes), SuccsOf(mf, nodes, |nodes|))
  }

  ghost function BlockCodes(mf: Function, n: nat): (codes: seq<seq<MachineInstr>>)
    requires n <= |mf|
    ensures |codes| == n && forall m | 0 <= m < n :: codes[m] == Mis(mf[m].code)
  {
    if n == 0 then [] else BlockCodes(mf, n - 1) + [Mis(mf[n - 1].code)]
  }

  /** A function as the code generator hands it over: edges stay inside, and
      instructions are distinct objects. */
  ghost predicate ProperFunction(ri: RegInfo, mf: Function) {
    && ri.Valid() && SuccsInside(mf) && DistinctIds(BlockCodes(mf, |mf|))
    && (forall m, k | 0 <= m < |mf| && 0 <= k < |mf[m].code| :: mf[m].code[k].mi.Valid(ri))
  }

  /** Where an instruction of a part is in its basic block. */
  lemma {:induction false} PlaceInBlock(parts: seq<seq<Instr>>, k: nat, x: nat) returns (at: nat)
    requires k < |parts| && x < |parts[k]|
    ensures at == |Concat(parts[..k])| + x < |Concat(parts[..k + 1])| <= |Concat(parts)| &&
              Concat(parts)[at] == parts[k][x]
    decreases |parts|
  {
    var n := |parts| - 1;
    assert parts[..k + 1] == parts[..k] + [parts[k]];
    ConcatPush(parts[..k], parts[k]);
    if k == n {
      assert parts[..k + 1] == parts;
      at := |Concat(parts[..k])| + x;
    } else {
      assert parts[..n][..k] == parts[..k] && parts[..n][..k + 1] == parts[..k + 1];
      at := PlaceInBlock(parts[..n], k, x);
    }
  }

  lemma {:induction false} PrefixShorter(parts: seq<seq<Instr>>, j: nat, k: nat)
    requires j <= k <= |parts|
    ensures |Concat(parts[..j])| <= |Concat(parts[..k])|
    decreases k
  {
    if j < k {
      PrefixShorter(parts, j, k - 1);
      assert parts[..k] == parts[..k - 1] + [parts[k - 1]];
      ConcatPush(parts[..k - 1], parts[k - 1]);
    }
  }

  /** An instruction of a part is one of the block the parts make up. */
  lemma PlaceInCode(code: seq<Instr>, k: nat, x: nat) returns (at: nat)
    requires var parts := PartsOf(code, |code|); k < |parts| && x < |parts[k]|
    ensures var parts := PartsOf(code, |code|);
            && at < |code| && code[at] == parts[k][x]
            && at == |Concat(parts[..k])| + x < |Concat(parts[..k + 1])|
  {
    hide PartsOf, Concat, JoinsOf;
    PartsAreUniform(code, |code|);
    at := PlaceInBlock(PartsOf(code, |code|), k, x);
    assert code[..|code|] == code;
  }

  /** An instruction of a node is one of its basic block. */
  lemma PlaceOf(mf: Function, a: Node, x: nat) returns (at: nat)
    requires x < |CodeAt(mf, a)|
    ensures a.In? && a.piece.Part? && a.mbb < |mf| && a.piece.k < |Parts(mf[a.mbb])|
    ensures at < |mf[a.mbb].code| && CodeAt(mf, a)[x] == mf[a.mbb].code[at].mi
    ensures at == |Concat(Parts(mf[a.mbb])[..a.piece.k])| + x < |Concat(Parts(mf[a.mbb])[..a.piece.k + 1])|
  {
    hide PartsOf, Concat;
    at := PlaceInCode(mf[a.mbb].code, a.piece.k, x);
  }

  lemma SameInstr(mf: Function, a: Node, x: nat, b: Node, y: nat)
    requires DistinctIds(BlockCodes(mf, |mf|)) && x < |CodeAt(mf, a)| && y < |CodeAt(mf, b)| &&
              CodeAt(mf, a)[x].id == CodeAt(mf, b)[y].id
    ensures a == b && x == y
  {
    var s := PlaceOf(mf, a, x);
    var u := PlaceOf(mf, b, y);
    assert BlockCodes(mf, |mf|)[a.mbb][s].id == BlockCodes(mf, |mf|)[b.mbb][u].id;
    var parts := Parts(mf[a.mbb]);
    if a.piece.k < b.piece.k {
      PrefixShorter(parts, a.piece.k + 1, b.piece.k);
    } else if b.piece.k < a.piece.k {
      PrefixShorter(parts, b.piece.k + 1, a.piece.k);
    }
  }

  /** The instructions of the pieces are valid and distinct. */
  lemma FunctionGraphValid(ri: RegInfo, mf: Function)
    requires ProperFunction(ri, mf)
    ensures FunctionGraph(ri, mf).Valid() && DistinctIds(FunctionGraph(ri, mf).code)
  {
    hide CodeAt, HasEdge, NodesOf, Parts, ListsNodes;
    var g, nodes := FunctionGraph(ri, mf), NodesOf(mf, |mf|);
    NodesExact(mf, |mf|);
    NodesDistinct(mf, |mf|, nodes);
    forall i, k | 0 <= i < |g.code| && 0 <= k < |g.code[i]| ensures g.code[i][k].Valid(ri) {
      var at := PlaceOf(mf, nodes[i], k);
    }
    forall i, j, k, l | 0 <= i < |g.code| && 0 <= j < |g.code| && 0 <= k < |g.code[i]| && 0 <= l < |g.code[j]| &&
        g.code[i][k].id == g.code[j][l].id
      ensures i == j && k == l
    {
      SameInstr(mf, nodes[i], k, nodes[j], l);
    }
  }

  lemma NodesDistinct(mf: Function, n: nat, nodes: seq<Node>)
    requires n <= |mf| && ListsNodes(mf, n, nodes)
    ensures forall i, j | 0 <= i < |nodes| && 0 <= j < |nodes| && nodes[i] == nodes[j] :: i == j
  {
  }

  /** Every edge is between nodes of the function. */
  lemma EdgeInside(mf: Function, a: Node, b: Node)
    requires SuccsInside(mf) && HasEdge(mf, a, b)
    ensures IsNode(mf, |mf|, a) && IsNode(mf, |mf|, b)
  {
    if LeadsInside(mf, a, b) {
      var code := mf[a.mbb].code;
      PartsAreUniform(code, |code|);
      var joins := JoinsOf(code, |code|);
      forall k: nat | k <= |joins| {
        NextOfLonger(joins, false, k);
      }
    } else {
      LinksExact(mf, a, b);
    }
  }

  /** The blocks have the edges of the function. */
  ghost predicate Linked(mf: Function, blocks: seq<VectorMBB>)
    reads blocks`successors
  {
    var nodes := NodesOf(mf, |mf|);
    && |blocks| == |nodes|
    && (forall i, b | 0 <= i < |blocks| && b in blocks[i].successors :: b in blocks)
    && (forall i, j | 0 <= i < |blocks| && 0 <= j < |blocks| :: blocks[j] in blocks[i].successors <==>
        HasEdge(mf, nodes[i], nodes[j]))
  }

  lemma ValidIf(cfg: VectorCFG)
    requires cfg.ri.Valid() && cfg.Complete() && DistinctIds(cfg.CodeOf(|cfg.blocks|))
    requires forall i, b | 0 <= i < |cfg.blocks| && b in cfg.blocks[i].successors :: b in cfg.blocks
    requires forall i, k | 0 <= i < |cfg.blocks| && 0 <= k < |cfg.CodeOf(|cfg.blocks|)[i]| ::
              cfg.CodeOf(|cfg.blocks|)[i][k].Valid(cfg.ri)
    ensures cfg.Valid()
  {
    hide DistinctIds;
    forall i, k | 0 <= i < |cfg.blocks| && 0 <= k < |cfg.blocks[i].instructions|
      ensures cfg.blocks[i].instructions[k].Valid(cfg.ri) {
      assert cfg.CodeOf(|cfg.blocks|)[i] == cfg.blocks[i].instructions;
    }
  }

  lemma LinkedIsValid(cfg: VectorCFG, mf: Function)
    requires ProperFunction(cfg.ri, mf) && cfg.Complete() && Linked(mf, cfg.blocks)
    requires forall i | 0 <= i < |cfg.blocks| :: cfg.blocks[i].instructions == CodeAt(mf, NodesOf(mf, |mf|)[i])
    ensures cfg.Valid() && cfg.CodeOf(|cfg.blocks|) == FunctionGraph(cfg.ri, mf).code
  {
    hide CodeAt, HasEdge, NodesOf, DistinctIds, VectorCFG.Valid, VectorCFG.Complete;
    FunctionGraphValid(cfg.ri, mf);
    assert cfg.CodeOf(|cfg.blocks|) == FunctionGraph(cfg.ri, mf).code;
    ValidIf(cfg);
  }

  lemma GraphIsFunctionGraph(cfg: VectorCFG, mf: Function)
    requires ProperFunction(cfg.ri, mf) && cfg.Complete() && Linked(mf, cfg.blocks)
    requires forall i | 0 <= i < |cfg.blocks| :: cfg.blocks[i].instructions == CodeAt(mf, NodesOf(mf, |mf|)[i])
    ensures cfg.Valid() && cfg.Graph() == FunctionGraph(cfg.ri, mf)
  {
    hide CodeAt, HasEdge, NodesOf, ProperFunction, VectorCFG.Valid, VectorCFG.Complete;
    LinkedIsValid(cfg, mf);
    var g := FunctionGraph(cfg.ri, mf);
    forall i | 0 <= i < |cfg.blocks| ensures cfg.SuccIndices(i) == g.succ[i] {
      forall j: nat ensures j in cfg.SuccIndices(i) <==> j in g.succ[i] {
      }
    }
    assert cfg.SuccOf(|cfg.blocks|) == g.succ;
  }

  lemma GroupedIsComplete(cfg: VectorCFG)
    requires Grouped(cfg.blocks, cfg.mbbs) && cfg.entryBlock == cfg.blocks[0] && cfg.exitBlock == cfg.blocks[1]
    requires forall i, j | 0 <= i < j < |cfg.blocks| :: cfg.blocks[i] != cfg.blocks[j]
    ensures cfg.Complete()
  {
    forall b: VectorMBB | b in cfg.blocks && b != cfg.entryBlock && b != cfg.exitBlock
      ensures exists m | m in cfg.mbbs :: b in cfg.mbbs[m] {
      assert b in cfg.blocks[2..];
    }
  }

  /** The block of each node. */
  function BlockOf(nodes: seq<Node>, blocks: seq<VectorMBB>, n: nat): (m: map<Node, VectorMBB>)
    requires n <= |nodes| == |blocks| && Distinct(nodes)
    ensures forall a :: a in m <==> a in nodes[..n]
    ensures forall i | 0 <= i < n :: nodes[i] in m && m[nodes[i]] == blocks[i]
  {
    if n == 0 then map[]
    else
      assert nodes[..n] == nodes[..n - 1] + [nodes[n - 1]];
      BlockOf(nodes, blocks, n - 1)[nodes[n - 1] := blocks[n - 1]]
  }

  lemma BlockOfInjective(nodes: seq<Node>, blocks: seq<VectorMBB>)
    requires |nodes| == |blocks| && Distinct(nodes) && forall i, j | 0 <= i < j < |blocks| :: blocks[i] != blocks[j]
    ensures var m := BlockOf(nodes, blocks, |nodes|);
            && (forall a :: a in m <==> a in nodes)
            && (forall a, b | a in m && b in m && m[a] == m[b] :: a == b)
  {
    assert nodes[..|nodes|] == nodes;
    var m := BlockOf(nodes, blocks, |nodes|);
    forall a, b | a in m && b in m && m[a] == m[b] ensures a == b {
      var i :| 0 <= i < |nodes| && nodes[i] == a;
      var j :| 0 <= j < |nodes| && nodes[j] == b;
      assert blocks[i] == blocks[j];
    }
  }

  /** What the edges between nodes are between blocks. */
  lemma SuccessorIff(nodes: seq<Node>, blocks: seq<VectorMBB>, edges: set<(Node, Node)>, i: nat, j: nat)
    requires |nodes| == |blocks| && Distinct(nodes) && i < |nodes| && j < |nodes|
    requires forall i, j | 0 <= i < j < |blocks| :: blocks[i] != blocks[j]
    ensures blocks[j] in SuccBlocks(BlockOf(nodes, blocks, |nodes|), edges, nodes[i]) <==> (nodes[i], nodes[j]) in edges
  {
    BlockOfInjective(nodes, blocks);
    var m := BlockOf(nodes, blocks, |nodes|);
    assert m[nodes[j]] == blocks[j];
  }

  lemma SuccessorsInside(nodes: seq<Node>, blocks: seq<VectorMBB>, edges: set<(Node, Node)>, a: Node)
    requires |nodes| == |blocks| && Distinct(nodes)
    ensures forall b | b in SuccBlocks(BlockOf(nodes, blocks, |nodes|), edges, a) :: b in blocks
  {
    var m := BlockOf(nodes, blocks, |nodes|);
    assert nodes[..|nodes|] == nodes;
    forall b | b in m ensures m[b] in blocks {
      var i :| 0 <= i < |nodes| && nodes[i] == b;
      assert blocks[i] == m[b];
    }
  }

  /** Every edge is recorded at both ends. */
  ghost predicate Mirrored(blocks: seq<VectorMBB>)
    reads blocks`successors, blocks`predecessors
  {
    && (forall j, b | 0 <= j < |blocks| && b in blocks[j].predecessors :: b in blocks)
    && (forall i, j | 0 <= i < |blocks| && 0 <= j < |blocks| ::
          blocks[i] in blocks[j].predecessors <==> blocks[j] in blocks[i].successors)
  }

  lemma AllMirrored(nodes: seq<Node>, blocks: seq<VectorMBB>, edges: set<(Node, Node)>)
    requires |blocks| == |nodes| && Distinct(nodes) && EdgesRecorded(BlockOf(nodes, blocks, |nodes|), edges)
    requires forall i, j | 0 <= i < j < |blocks| :: blocks[i] != blocks[j]
    ensures Mirrored(blocks)
  {
    hide SuccBlocks, BlockOf, Distinct;
    BlockOfInjective(nodes, blocks);
    forall j, b | 0 <= j < |blocks| && b in blocks[j].predecessors ensures b in blocks {
      SuccessorsInside(nodes, blocks, Reversed(edges), nodes[j]);
    }
    forall i, j | 0 <= i < |blocks| && 0 <= j < |blocks|
      ensures blocks[i] in blocks[j].predecessors <==> blocks[j] in blocks[i].successors
    {
      SuccessorIff(nodes, blocks, edges, i, j);
      SuccessorIff(nodes, blocks, Reversed(edges), j, i);
    }
  }

  lemma AllLinked(mf: Function, nodes: seq<Node>, blocks: seq<VectorMBB>, edges: set<(Node, Node)>)
    requires nodes == NodesOf(mf, |mf|) && |blocks| == |nodes| && Distinct(nodes)
    requires forall i, j | 0 <= i < j < |blocks| :: blocks[i] != blocks[j]
    requires forall a, b :: (a, b) in edges <==> HasEdge(mf, a, b)
    requires forall i | 0 <= i < |nodes| ::
              blocks[i].successors == SuccBlocks(BlockOf(nodes, blocks, |nodes|), edges, nodes[i])
    ensures Linked(mf, blocks)
  {
    hide NodesOf, HasEdge, SuccBlocks, BlockOf, Distinct;
    forall i, b | 0 <= i < |blocks| && b in blocks[i].successors ensures b in blocks {
      SuccessorsInside(nodes, blocks, edges, nodes[i]);
    }
    forall i, j | 0 <= i < |blocks| && 0 <= j < |blocks|
      ensures blocks[j] in blocks[i].successors <==> HasEdge(mf, nodes[i], nodes[j]) {
      SuccessorIff(nodes, blocks, edges, i, j);
    }
  }

  method BuildLinked(ri: RegInfo, mf: Function) returns (blocks: seq<VectorMBB>, mbbs: map<nat, seq<VectorMBB>>)
    requires ProperFunction(ri, mf)
    ensures Linked(mf, blocks) && Mirrored(blocks) && Grouped(blocks, mbbs) && forall i, j | 0 <= i < j < |blocks| ::
              blocks[i] != blocks[j]
    ensures forall i | 0 <= i < |blocks| :: fresh(blocks[i]) && blocks[i].liveIns == []
    ensures forall i | 0 <= i < |blocks| :: blocks[i].instructions == CodeAt(mf, NodesOf(mf, |mf|)[i])
  {
    hide HasEdge, NodesOf, Grouped, CodeAt, InsideUpTo, Links, LeadsInside, BlockOf, SuccBlocks, Distinct, IsNode;
    var nodes, inside;
    nodes, blocks, mbbs, inside := BuildBlocks(mf);
    var links := LinkBlocks(mf);
    NodesExact(mf, |mf|);
    AllEdges(mf, inside, links);
    BlockOfInjective(nodes, blocks);
    var blockOf := BlockOf(nodes, blocks, |nodes|);
    forall a, b | (a, b) in inside + links ensures a in blockOf && b in blockOf {
      EdgeInside(mf, a, b);
    }
    SuccessorsInside(nodes, blocks, {}, FunctionEntry);
    ValuesBlank(nodes, blocks);
    AddEdges(blockOf, inside + links);
    AllLinked(mf, nodes, blocks, inside + links);
    AllMirrored(nodes, blocks, inside + links);
  }

  lemma ValuesBlank(nodes: seq<Node>, blocks: seq<VectorMBB>)
    requires |nodes| == |blocks| && Distinct(nodes) && NewBlocks(blocks)
    ensures var m := BlockOf(nodes, blocks, |nodes|);
            && (forall a | a in m :: m[a] in blocks && m[a].successors == {} == m[a].predecessors)
            && (forall i | 0 <= i < |nodes| :: nodes[i] in m && m[nodes[i]] == blocks[i])
  {
    var m := BlockOf(nodes, blocks, |nodes|);
    assert nodes[..|nodes|] == nodes;
    forall a | a in m ensures m[a] in blocks && m[a].successors == {} == m[a].predecessors {
      var i :| 0 <= i < |nodes| && nodes[i] == a;
      assert blocks[i] == m[a];
    }
  }

  /** The pieces of a basic block hold its instructions in their order, each part those from
      where it begins; the other three hold none. */
  lemma PiecesInOrder(mf: Function, m: nat, k: nat, j: nat)
    requires m < |mf| && k < |Parts(mf[m])|
    ensures |CodeAt(mf, In(m, Part(k)))| == |Parts(mf[m])[k]|
    ensures forall p | p in {EntryNotTaken, ExitTaken, ExitNotTaken} :: CodeAt(mf, In(m, p)) == []
    ensures j < |CodeAt(mf, In(m, Part(k)))| ==>
              && Begins(Parts(mf[m]), k) + j < |mf[m].code|
              && CodeAt(mf, In(m, Part(k)))[j] == mf[m].code[Begins(Parts(mf[m]), k) + j].mi
  {
    hide PartsOf, JoinsOf, Concat, Begins;
    var code := mf[m].code;
    PartsAreUniform(code, |code|);
    assert code[..|code|] == code;
    if j < |CodeAt(mf, In(m, Part(k)))| {
      PartAt(Parts(mf[m]), k, j);
    }
  }

  /** The entry and the exit of the function come first. */
  lemma {:induction false} EntryAndExit(mf: Function, n: nat)
    requires n <= |mf|
    ensures |NodesOf(mf, n)| >= 2 && NodesOf(mf, n)[0] == FunctionEntry && NodesOf(mf, n)[1] == FunctionExit
    decreases n
  {
    if n > 0 {
      EntryAndExit(mf, n - 1);
    }
  }

  /** Builds the vector control-flow graph of a function. It is the graph of its
      pieces, and nothing is live in it yet. */
  method GetVectorCFG(ri: RegInfo, mf: Function) returns (cfg: VectorCFG)
    requires ProperFunction(ri, mf)
    ensures cfg.ri == ri && cfg.Valid() && cfg.Graph() == FunctionGraph(ri, mf) && Mirrored(cfg.blocks)
    ensures fresh(cfg.blocks) && forall b: VectorMBB | b in cfg.blocks :: b.liveIns == []
    ensures |cfg.blocks| >= 2 && cfg.entryBlock == cfg.blocks[0] && cfg.exitBlock == cfg.blocks[1]
  {
    hide Linked, Mirrored, NodesOf, CodeAt, FunctionGraph, ProperFunction;
    var blocks, mbbs := BuildLinked(ri, mf);
    cfg := new VectorCFG(ri, mbbs, blocks[0], blocks[1], blocks);
    GroupedIsComplete(cfg);
    GraphIsFunctionGraph(cfg, mf);
  }

  lemma AllEdges(mf: Function, inside: set<(Node, Node)>, links: set<(Node, Node)>)
    requires forall a, b :: (a, b) in inside <==> InsideUpTo(mf, |mf|, a, b)
    requires forall a, b :: (a, b) in links <==> Links(mf, a, b)
    ensures forall a, b :: (a, b) in inside + links <==> HasEdge(mf, a, b)
  {
  }
}
