/** Sorting the symbols of a code object into kernels, device functions, variables
    and external symbols, and finding the same symbols again by name. */
module SymbolKinds {
  import opened Wrappers

  datatype SymbolType = NoType | Object | Func | HsaKernel | OtherType(code: nat)

  /** `named` says whether the name of the symbol can be read. */
  datatype Symbol = Symbol(name: string, named: bool, ty: SymbolType, isGlobal: bool, size: nat)

  datatype Error = BadName | NoKernelFunction | NoDescriptor | NoMetadata | NoExecutableSymbol | LookupFailed

  const KD := ".kd"

  predicate EndsWithKD(name: string) {
    |name| >= 3 && name[|name| - 3..] == KD
  }

  /** Where the last ".kd" starting before `n` starts. */
  function LastKD(name: string, n: nat): (r: Option<nat>)
    requires n <= |name|
    ensures r.Some? ==> r.value < n && KD <= name[r.value..]
    ensures forall i | (if r.Some? then r.value + 1 else 0) <= i < n :: !(KD <= name[i..])
  {
    if n == 0 then None else if KD <= name[n - 1..] then Some(n - 1) else LastKD(name, n - 1)
  }

  /** The name up to its last ".kd", or all of it. */
  function WithoutKD(name: string): string {
    var at := LastKD(name, |name|);
    if at.Some? then name[..at.value] else name
  }

  lemma WithoutKDUndoes(name: string)
    ensures WithoutKD(name + KD) == name
    ensures EndsWithKD(name) ==> WithoutKD(name) + KD == name
  {
    var n := name + KD;
    assert n[|name|..] == KD;
    if EndsWithKD(name) {
      assert KD <= name[|name| - 3..];
    }
  }

  predicate IsDescriptor(s: Symbol) {
    s.size == 64 && (s.ty == HsaKernel || (s.ty == Object && EndsWithKD(s.name)))
  }

  datatype Kind = FunctionKind | DescriptorKind | VariableKind | ExternKind | MiscKind

  function KindOf(s: Symbol): Kind {
    if s.ty == Func then FunctionKind
    else if IsDescriptor(s) then DescriptorKind
    else if s.ty == Object then VariableKind
    else if s.ty == NoType && s.isGlobal then ExternKind
    else MiscKind
  }

  // ---- selecting symbols

  function Select(symbols: seq<Symbol>, p: Symbol -> bool): (r: seq<Symbol>)
    ensures forall s :: s in r <==> s in symbols && p(s)
  {
    if symbols == [] then []
    else
      var n := |symbols| - 1;
      assert symbols == symbols[..n] + [symbols[n]];
      if p(symbols[n]) then Select(symbols[..n], p) + [symbols[n]] else Select(symbols[..n], p)
  }

  /** A table from names to symbols in which the first symbol of a name stays. */
  function Insert(m: map<string, Symbol>, s: Symbol): map<string, Symbol> {
    if s.name in m then m else m[s.name := s]
  }

  function ByNameTable(symbols: seq<Symbol>, p: Symbol -> bool): (m: map<string, Symbol>)
    ensures forall n | n in m :: m[n].name == n && m[n] in symbols && p(m[n])
    ensures forall s | s in symbols && p(s) :: s.name in m
  {
    if symbols == [] then map[]
    else
      var n := |symbols| - 1;
      assert symbols == symbols[..n] + [symbols[n]];
      var m := ByNameTable(symbols[..n], p);
      if p(symbols[n]) then Insert(m, symbols[n]) else m
  }

  function OfKind(k: Kind): Symbol -> bool {
    s => KindOf(s) == k
  }

  function Functions(symbols: seq<Symbol>): (m: map<string, Symbol>)
    ensures forall n | n in m :: m[n].name == n && m[n] in symbols && m[n].ty == Func
    ensures forall s | s in symbols && s.ty == Func :: s.name in m
  {
    ByNameTable(symbols, OfKind(FunctionKind))
  }

  function Descriptors(symbols: seq<Symbol>): (m: map<string, Symbol>)
    ensures forall n | n in m :: m[n].name == n && m[n] in symbols && IsDescriptor(m[n])
    ensures forall s | s in symbols && IsDescriptor(s) :: s.name in m
  {
    ByNameTable(symbols, OfKind(DescriptorKind))
  }

  lemma SelectStep(done: seq<Symbol>, s: Symbol, p: Symbol -> bool)
    ensures Select(done + [s], p) == if p(s) then Select(done, p) + [s] else Select(done, p)
    ensures ByNameTable(done + [s], p) == if p(s) then Insert(ByNameTable(done, p), s) else ByNameTable(done, p)
  {
    assert (done + [s])[..|done|] == done;
  }

  /** The list has the elements of the set, each once. */
  ghost predicate Lists<T(!new)>(l: seq<T>, s: set<T>) {
    (forall i, j | 0 <= i < j < |l| :: l[i] != l[j]) && forall x :: x in l <==> x in s
  }

  lemma ListsPush<T(!new)>(l: seq<T>, s: set<T>, x: T)
    requires Lists(l, s) && x !in s
    ensures Lists(l + [x], s + {x})
  {
    forall i, j | 0 <= i < j < |l + [x]| ensures (l + [x])[i] != (l + [x])[j] {
      if j == |l| {
        assert l[i] in l;
      }
    }
  }

  lemma {:induction false} ListsCount<T(!new)>(l: seq<T>, s: set<T>)
    requires Lists(l, s)
    ensures multiset(l) == multiset(s)
    decreases |l|
  {
    if l == [] {
      assert s == {};
    } else {
      var n := |l| - 1;
      assert l == l[..n] + [l[n]];
      assert forall x | x in l[..n] :: x in s && x != l[n];
      forall x | x in s - {l[n]} ensures x in l[..n] {
        assert x in l;
      }
      ListsCount(l[..n], s - {l[n]});
      assert multiset(s) == multiset(s - {l[n]}) + multiset{l[n]};
    }
  }

  /** A vector that operations append their results to. */
  class SmallVector<T> {
    var items: seq<T>

    constructor ()
      ensures items == []
    {
      items := [];
    }

    method PushBack(x: T)
      modifies this
      ensures items == old(items) + [x]
    {
      items := items + [x];
    }
  }

  /** A kernel descriptor with the function it describes. */
  datatype KernelRef = KernelRef(descriptor: Symbol, function_: Symbol)

  /** Every descriptor has its function, and no two the same one. */
  ghost predicate Pairable(kds: set<string>, fs: set<string>) {
    && (forall n | n in kds :: WithoutKD(n) in fs)
    && (forall m, n | m in kds && n in kds && WithoutKD(m) == WithoutKD(n) :: m == n)
  }

  ghost predicate AllNamed(symbols: seq<Symbol>) {
    forall i | 0 <= i < |symbols| :: symbols[i].named
  }

  lemma NamedStep(done: seq<Symbol>, s: Symbol)
    ensures (AllNamed(done + [s]) <==> AllNamed(done) && s.named)
  {
    assert (done + [s])[|done|] == s && forall i | 0 <= i < |done| :: (done + [s])[i] == done[i];
  }

  lemma NoneUnnamed()
    ensures AllNamed([])
  {
  }

  lemma NotNamed(symbols: seq<Symbol>, s: Symbol)
    requires s in symbols && !s.named
    ensures !AllNamed(symbols)
  {
  }

  /** The descriptors named in `ns`, each with its function. */
  ghost function KernelRefs(ns: set<string>, kds: map<string, Symbol>, fs: map<string, Symbol>): set<KernelRef> {
    set n | n in ns && n in kds && WithoutKD(n) in fs :: KernelRef(kds[n], fs[WithoutKD(n)])
  }

  ghost function Described(ns: set<string>): set<string> {
    set n | n in ns :: WithoutKD(n)
  }

  ghost function SymbolsOf(m: map<string, Symbol>): set<Symbol> {
    set n | n in m :: m[n]
  }

  // ---- the classifier of object files

  ghost predicate Different(a: SmallVector?<Symbol>, b: SmallVector?<Symbol>, c: SmallVector?<Symbol>) {
    (a != null ==> a != b && a != c) && (b != null ==> b != c)
  }

  /** The symbols of the kind were appended to what the output held, if there is one. */
  ghost predicate Appended(out: SmallVector?<Symbol>, before: seq<Symbol>, symbols: seq<Symbol>, k: Kind)
    reads out
  {
    out != null ==> out.items == before + Select(symbols, OfKind(k))
  }

  /** What a vector has, or nothing when it was not asked for. */
  ghost function Held<T>(out: SmallVector?<T>): seq<T>
    reads out
  {
    if out == null then [] else out.items
  }

  method FileSymbol(s: Symbol, fs: map<string, Symbol>, kds: map<string, Symbol>,
                    variables: SmallVector?<Symbol>, externs: SmallVector?<Symbol>, misc: SmallVector?<Symbol>)
    returns (fs': map<string, Symbol>, kds': map<string, Symbol>)
    requires Different(variables, externs, misc)
    modifies variables, externs, misc
    ensures fs' == if KindOf(s) == FunctionKind then Insert(fs, s) else fs
    ensures kds' == if KindOf(s) == DescriptorKind then Insert(kds, s) else kds
    ensures variables != null ==>
              variables.items == old(variables.items) + if KindOf(s) == VariableKind then [s] else []
    ensures externs != null ==> externs.items == old(externs.items) + if KindOf(s) == ExternKind then [s] else []
    ensures misc != null ==> misc.items == old(misc.items) + if KindOf(s) == MiscKind then [s] else []
  {
    fs', kds' := fs, kds;
    if s.ty == Func {
      fs' := Insert(fs, s);
    } else if s.ty == Object {
      if EndsWithKD(s.name) && s.size == 64 {
        kds' := Insert(kds, s);
      } else if variables != null {
        variables.PushBack(s);
      }
    } else if s.ty == HsaKernel && s.size == 64 {
      kds' := Insert(kds, s);
    } else if s.ty == NoType && s.isGlobal {
      if externs != null {
        externs.PushBack(s);
      }
    } else if misc != null {
      misc.PushBack(s);
    }
  }

  lemma AppendedStep(before: seq<Symbol>, done: seq<Symbol>, s: Symbol, k: Kind)
    ensures before + Select(done + [s], OfKind(k)) == before + Select(done, OfKind(k)) + if KindOf(s) == k then [s]
              else []
  {
    SelectStep(done, s, OfKind(k));
  }

  /** The first pass: functions and descriptors into tables, the rest into outputs. */
  method FileSymbols(symbols: seq<Symbol>, variables: SmallVector?<Symbol>, externs: SmallVector?<Symbol>,
                     misc: SmallVector?<Symbol>)
    returns (r: Result<(map<string, Symbol>, map<string, Symbol>), Error>)
    requires Different(variables, externs, misc)
    modifies variables, externs, misc
    ensures r.Ok? <==> AllNamed(symbols)
    ensures r.Ok? ==> r.value == (Functions(symbols), Descriptors(symbols))
    ensures r.Ok? ==> Appended(variables, old(Held(variables)), symbols, VariableKind)
    ensures r.Ok? ==> Appended(externs, old(Held(externs)), symbols, ExternKind)
    ensures r.Ok? ==> Appended(misc, old(Held(misc)), symbols, MiscKind)
  {
    hide Select, ByNameTable, KindOf, Insert, AllNamed;
    NoneUnnamed();
    var fs, kds := map[], map[];
    ghost var done: seq<Symbol> := [];
    NothingSelected(OfKind(FunctionKind));
    NothingSelected(OfKind(DescriptorKind));
    NothingSelected(OfKind(VariableKind));
    NothingSelected(OfKind(ExternKind));
    NothingSelected(OfKind(MiscKind));
    for n := 0 to |symbols|
      invariant done == symbols[..n] && AllNamed(done)
      invariant fs == Functions(done) && kds == Descriptors(done)
      invariant Appended(variables, old(Held(variables)), done, VariableKind)
      invariant Appended(externs, old(Held(externs)), done, ExternKind)
      invariant Appended(misc, old(Held(misc)), done, MiscKind)
    {
      var s := symbols[n];
      if !s.named {
        NotNamed(symbols, s);
        return Err(BadName);
      }
      NamedStep(done, s);
      SelectStep(done, s, OfKind(FunctionKind));
      SelectStep(done, s, OfKind(DescriptorKind));
      AppendedStep(old(Held(variables)), done, s, VariableKind);
      AppendedStep(old(Held(externs)), done, s, ExternKind);
      AppendedStep(old(Held(misc)), done, s, MiscKind);
      fs, kds := FileSymbol(s, fs, kds, variables, externs, misc);
      done := done + [s];
    }
    assert symbols[..|symbols|] == symbols;
    return Ok((fs, kds));
  }

  lemma NothingSelected(p: Symbol -> bool)
    ensures Select([], p) == [] && ByNameTable([], p) == map[]
  {
  }

  lemma NoRefs(kds: map<string, Symbol>, fs: map<string, Symbol>)
    ensures Lists([], KernelRefs({}, kds, fs))
  {
  }

  lemma RefsStep(l: seq<KernelRef>, ns: set<string>, n: string, kds: map<string, Symbol>, fs: map<string, Symbol>)
    requires Lists(l, KernelRefs(ns, kds, fs)) && n !in ns && n in kds && WithoutKD(n) in fs
    requires forall k | k in kds :: kds[k].name == k
    ensures Lists(l + [KernelRef(kds[n], fs[WithoutKD(n)])], KernelRefs(ns + {n}, kds, fs))
  {
    ListsPush(l, KernelRefs(ns, kds, fs), KernelRef(kds[n], fs[WithoutKD(n)]));
    assert KernelRefs(ns + {n}, kds, fs) == KernelRefs(ns, kds, fs) + {KernelRef(kds[n], fs[WithoutKD(n)])};
  }

  /** The output is what it was and then the elements of the set, each once. */
  ghost predicate Extended<T(!new)>(out: SmallVector?<T>, before: seq<T>, s: set<T>)
    reads out
  {
    out != null ==> before <= out.items && Lists(out.items[|before|..], s)
  }

  /** The second pass: takes the function of every descriptor out of the table, in
      whatever order the table has. */
  method PairKernels(fs: map<string, Symbol>, kds: map<string, Symbol>, kernels: SmallVector?<KernelRef>)
    returns (r: Result<map<string, Symbol>, Error>)
    requires forall k | k in kds :: kds[k].name == k
    modifies kernels
    ensures r.Ok? <==> Pairable(kds.Keys, fs.Keys)
    ensures r.Ok? ==> r.value == fs - Described(kds.Keys)
    ensures r.Ok? ==> Extended(kernels, old(Held(kernels)), KernelRefs(kds.Keys, kds, fs))
  {
    hide KernelRefs, Lists;
    var rest, todo := fs, kds.Keys;
    ghost var done: set<string>, l: seq<KernelRef> := {}, [];
    NoRefs(kds, fs);
    while todo != {}
      invariant done + todo == kds.Keys && done !! todo
      invariant Pairable(done, fs.Keys) && rest == fs - Described(done)
      invariant Lists(l, KernelRefs(done, kds, fs))
      invariant kernels != null ==> kernels.items == old(kernels.items) + l
      decreases todo
    {
      var n :| n in todo;
      var f := WithoutKD(n);
      if f !in rest {
        assert f !in fs || exists m | m in done :: WithoutKD(m) == f;
        return Err(NoKernelFunction);
      }
      RefsStep(l, done, n, kds, fs);
      if kernels != null {
        kernels.PushBack(KernelRef(kds[n], rest[f]));
      }
      l := l + [KernelRef(kds[n], fs[f])];
      rest := rest - {f};
      todo, done := todo - {n}, done + {n};
    }
    assert done == kds.Keys;
    assert kernels != null ==> kernels.items[|old(Held(kernels))|..] == l;
    return Ok(rest);
  }

  lemma FunctionsStep(l: seq<Symbol>, todo: set<string>, n: string, fs: map<string, Symbol>)
    requires Lists(l, SymbolsOf(fs - todo)) && n in todo && n in fs && forall k | k in fs :: fs[k].name == k
    ensures Lists(l + [fs[n]], SymbolsOf(fs - (todo - {n})))
  {
    ListsPush(l, SymbolsOf(fs - todo), fs[n]);
    var a, b := fs - todo, fs - (todo - {n});
    assert forall k | k in b :: k in a || k == n;
    assert n in b && forall k | k in a :: k in b && b[k] == a[k];
    assert SymbolsOf(b) == SymbolsOf(a) + {fs[n]};
  }

  method PushFunctions(fs: map<string, Symbol>, functions: SmallVector?<Symbol>)
    requires forall n | n in fs :: fs[n].name == n
    modifies functions
    ensures Extended(functions, old(Held(functions)), SymbolsOf(fs))
  {
    if functions == null {
      return;
    }
    var todo := fs.Keys;
    ghost var l: seq<Symbol> := [];
    while todo != {}
      invariant todo <= fs.Keys
      invariant Lists(l, SymbolsOf(fs - todo)) && functions.items == old(functions.items) + l
      decreases todo
    {
      var n :| n in todo;
      FunctionsStep(l, todo, n, fs);
      functions.PushBack(fs[n]);
      l := l + [fs[n]];
      todo := todo - {n};
    }
    assert fs - todo == fs;
    assert functions.items[|old(functions.items)|..] == l;
  }

  ghost predicate Outputs(kernels: SmallVector?<KernelRef>, functions: SmallVector?<Symbol>, fs: map<string, Symbol>,
                          kds: map<string, Symbol>, hadKernels: seq<KernelRef>, hadFunctions: seq<Symbol>)
    reads kernels, functions
  {
    && Extended(kernels, hadKernels, KernelRefs(kds.Keys, kds, fs))
    && Extended(functions, hadFunctions, SymbolsOf(fs - Described(kds.Keys)))
  }

  /** An output left out is null, and the others do not depend on it. */
  method CategorizeSymbols(symbols: seq<Symbol>, kernels: SmallVector?<KernelRef>, functions: SmallVector?<Symbol>,
                           variables: SmallVector?<Symbol>, externs: SmallVector?<Symbol>, misc: SmallVector?<Symbol>)
    returns (r: Result<(), Error>)
    requires Different(variables, externs, misc) && (functions != null ==> functions !in {variables, externs, misc})
    modifies kernels, functions, variables, externs, misc
    ensures r.Ok? <==> AllNamed(symbols) && Pairable(Descriptors(symbols).Keys, Functions(symbols).Keys)
    ensures r.Ok? ==> Outputs(kernels, functions, Functions(symbols), Descriptors(symbols), old(Held(kernels)),
                              old(Held(functions)))
    ensures AllNamed(symbols) ==> Appended(variables, old(Held(variables)), symbols, VariableKind)
    ensures AllNamed(symbols) ==> Appended(externs, old(Held(externs)), symbols, ExternKind)
    ensures AllNamed(symbols) ==> Appended(misc, old(Held(misc)), symbols, MiscKind)
  {
    hide Select, ByNameTable, AllNamed, Pairable, KernelRefs, SymbolsOf, Described, Lists, OfKind;
    var filed := FileSymbols(symbols, variables, externs, misc);
    if filed.Err? {
      return Err(filed.error);
    }
    var (fs, kds) := filed.value;
    var rest := PairKernels(fs, kds, kernels);
    if rest.Err? {
      return Err(rest.error);
    }
    PushFunctions(rest.value, functions);
    return Ok(());
  }

  // ---- what the classifier keeps

  ghost function DescriptorsIn(ks: seq<KernelRef>): (r: seq<Symbol>)
    ensures |r| == |ks| && forall i | 0 <= i < |ks| :: r[i] == ks[i].descriptor
  {
    seq(|ks|, i requires 0 <= i < |ks| => ks[i].descriptor)
  }

  ghost function FunctionsIn(ks: seq<KernelRef>): (r: seq<Symbol>)
    ensures |r| == |ks| && forall i | 0 <= i < |ks| :: r[i] == ks[i].function_
  {
    seq(|ks|, i requires 0 <= i < |ks| => ks[i].function_)
  }

  /** Kernels pair descriptors and functions one to one, by name. */
  lemma PairedOneToOne(ks: seq<KernelRef>, kds: map<string, Symbol>, fs: map<string, Symbol>)
    requires Pairable(kds.Keys, fs.Keys) && Lists(ks, KernelRefs(kds.Keys, kds, fs))
    requires (forall n | n in kds :: kds[n].name == n) && (forall n | n in fs :: fs[n].name == n)
    ensures forall k | k in ks :: k.function_.name == WithoutKD(k.descriptor.name)
    ensures forall i, j | 0 <= i < j < |ks| ::
              ks[i].descriptor != ks[j].descriptor && ks[i].function_ != ks[j].function_
  {
    hide WithoutKD;
    var refs := KernelRefs(kds.Keys, kds, fs);
    forall i | 0 <= i < |ks|
      ensures ks[i].descriptor.name in kds &&
                ks[i] == KernelRef(kds[ks[i].descriptor.name], fs[WithoutKD(ks[i].descriptor.name)])
    {
      assert ks[i] in ks && ks[i] in refs;
    }
  }

  lemma DescriptorsListed(ks: seq<KernelRef>, kds: map<string, Symbol>, fs: map<string, Symbol>)
    requires Pairable(kds.Keys, fs.Keys) && Lists(ks, KernelRefs(kds.Keys, kds, fs))
    requires (forall n | n in kds :: kds[n].name == n) && (forall n | n in fs :: fs[n].name == n)
    ensures Lists(DescriptorsIn(ks), SymbolsOf(kds))
    ensures Lists(FunctionsIn(ks), SymbolsOf(map n | n in fs && n in Described(kds.Keys) :: fs[n]))
  {
    hide WithoutKD;
    PairedOneToOne(ks, kds, fs);
    var m := map n | n in fs && n in Described(kds.Keys) :: fs[n];
    forall k | k in ks ensures k.descriptor in SymbolsOf(kds) && k.function_ in SymbolsOf(m) {
      assert k in KernelRefs(kds.Keys, kds, fs);
      assert m[k.function_.name] == k.function_;
    }
    forall n | n in kds ensures kds[n] in DescriptorsIn(ks) && fs[WithoutKD(n)] in FunctionsIn(ks) {
      var k := KernelRef(kds[n], fs[WithoutKD(n)]);
      assert k in KernelRefs(kds.Keys, kds, fs) && k in ks;
      var i :| 0 <= i < |ks| && ks[i] == k;
      assert DescriptorsIn(ks)[i] == kds[n] && FunctionsIn(ks)[i] == fs[WithoutKD(n)];
    }
  }

  lemma ListsJoin<T(!new)>(l: seq<T>, m: seq<T>, s: set<T>, u: set<T>)
    requires Lists(l, s) && Lists(m, u) && s !! u
    ensures Lists(l + m, s + u)
  {
    forall i, j | 0 <= i < j < |l + m| ensures (l + m)[i] != (l + m)[j] {
      if i < |l| <= j {
        assert l[i] in l && m[j - |l|] in m;
      }
    }
  }

  lemma FunctionsListed(ks: seq<KernelRef>, ds: seq<Symbol>, kds: map<string, Symbol>, fs: map<string, Symbol>)
    requires Pairable(kds.Keys, fs.Keys) && Lists(ks, KernelRefs(kds.Keys, kds, fs)) &&
             Lists(ds, SymbolsOf(fs - Described(kds.Keys)))
    requires (forall n | n in kds :: kds[n].name == n) && (forall n | n in fs :: fs[n].name == n)
    ensures Lists(FunctionsIn(ks) + ds, SymbolsOf(fs))
  {
    hide WithoutKD, Described, Lists, KernelRefs, FunctionsIn;
    var described := Described(kds.Keys);
    var m := map n | n in fs && n in described :: fs[n];
    DescriptorsListed(ks, kds, fs);
    ListsJoin(FunctionsIn(ks), ds, SymbolsOf(m), SymbolsOf(fs - described));
    assert forall n | n in fs :: if n in described then m[n] == fs[n] else (fs - described)[n] == fs[n];
    assert SymbolsOf(m) + SymbolsOf(fs - described) == SymbolsOf(fs);
  }

  /** How often the symbol is in the list. */
  ghost function Count(l: seq<Symbol>, s: Symbol): nat {
    multiset(l)[s]
  }

  lemma CountStep(l: seq<Symbol>, x: Symbol, s: Symbol)
    ensures Count(l + [x], s) == Count(l, s) + if s == x then 1 else 0
  {
  }

  lemma CountConcat(l: seq<Symbol>, m: seq<Symbol>, s: Symbol)
    ensures Count(l + m, s) == Count(l, s) + Count(m, s)
  {
    assert multiset(l + m) == multiset(l) + multiset(m);
  }

  lemma {:induction false} CountSelected(symbols: seq<Symbol>, k: Kind, s: Symbol)
    ensures Count(Select(symbols, OfKind(k)), s) == if KindOf(s) == k then Count(symbols, s) else 0
    decreases |symbols|
  {
    hide KindOf;
    if symbols != [] {
      var n := |symbols| - 1;
      CountSelected(symbols[..n], k, s);
      assert symbols[..n + 1] == symbols == symbols[..n] + [symbols[n]];
      SelectStep(symbols[..n], symbols[n], OfKind(k));
      CountStep(symbols[..n], symbols[n], s);
      CountStep(Select(symbols[..n], OfKind(k)), symbols[n], s);
    }
  }

  /** No two symbols of the kind share a name. */
  ghost predicate DistinctNames(symbols: seq<Symbol>, k: Kind) {
    forall i, j | 0 <= i < j < |symbols| && KindOf(symbols[i]) == k && KindOf(symbols[j]) == k ::
        symbols[i].name != symbols[j].name
  }

  lemma {:induction false} SelectDistinct(symbols: seq<Symbol>, k: Kind)
    requires DistinctNames(symbols, k)
    ensures Lists(Select(symbols, OfKind(k)), SymbolsOf(ByNameTable(symbols, OfKind(k))))
    decreases |symbols|
  {
    if symbols != [] {
      var n := |symbols| - 1;
      assert symbols == symbols[..n] + [symbols[n]] && symbols[..n + 1] == symbols;
      SelectStep(symbols[..n], symbols[n], OfKind(k));
      SelectDistinct(symbols[..n], k);
      if KindOf(symbols[n]) == k {
        var before := ByNameTable(symbols[..n], OfKind(k));
        assert symbols[n].name !in before;
        ListsPush(Select(symbols[..n], OfKind(k)), SymbolsOf(before), symbols[n]);
        InsertNew(before, symbols[n]);
      }
    }
  }

  lemma InsertNew(m: map<string, Symbol>, s: Symbol)
    requires s.name !in m
    ensures SymbolsOf(Insert(m, s)) == SymbolsOf(m) + {s}
  {
    assert forall n | n in m :: Insert(m, s)[n] == m[n];
    assert Insert(m, s)[s.name] == s;
  }

  lemma {:induction false} TwiceCounts<T>(s: seq<T>, i: nat, j: nat)
    requires i < j < |s| && s[i] == s[j]
    ensures multiset(s)[s[i]] >= 2
  {
    assert s == s[..j] + [s[j]] + s[j + 1..];
    assert s[i] in s[..j];
  }

  /** The table has each symbol of the kind as often as the file does. */
  ghost predicate TableCounts(symbols: seq<Symbol>, k: Kind) {
    forall s | KindOf(s) == k :: multiset(SymbolsOf(ByNameTable(symbols, OfKind(k))))[s] == Count(symbols, s)
  }

  lemma TableCountsIffDistinct(symbols: seq<Symbol>, k: Kind)
    ensures TableCounts(symbols, k) <==> DistinctNames(symbols, k)
  {
    hide KindOf;
    var table := ByNameTable(symbols, OfKind(k));
    if TableCounts(symbols, k) {
      forall i, j | 0 <= i < j < |symbols| && KindOf(symbols[i]) == k && KindOf(symbols[j]) == k
        ensures symbols[i].name != symbols[j].name {
        var a, b := symbols[i], symbols[j];
        assert Count(symbols, a) > 0 && Count(symbols, b) > 0;
        assert a in SymbolsOf(table) && b in SymbolsOf(table);
        if a == b {
          TwiceCounts(symbols, i, j);
        }
      }
    }
    if DistinctNames(symbols, k) {
      SelectDistinct(symbols, k);
      ListsCount(Select(symbols, OfKind(k)), SymbolsOf(table));
      forall s | KindOf(s) == k ensures multiset(SymbolsOf(table))[s] == Count(symbols, s) {
        CountSelected(symbols, k, s);
      }
    }
  }

  lemma TableKind(symbols: seq<Symbol>, k: Kind, s: Symbol)
    ensures KindOf(s) != k ==> multiset(SymbolsOf(ByNameTable(symbols, OfKind(k))))[s] == 0
  {
  }

  /** How often the symbol is in the six lists of outputs. */
  ghost function Classified(symbols: seq<Symbol>, ks: seq<KernelRef>, ds: seq<Symbol>, s: Symbol): nat {
    Count(DescriptorsIn(ks), s) + Count(FunctionsIn(ks), s) + Count(ds, s) +
        Count(Select(symbols, OfKind(VariableKind)), s)
    + Count(Select(symbols, OfKind(ExternKind)), s) + Count(Select(symbols, OfKind(MiscKind)), s)
  }

  lemma ClassifiedCount(symbols: seq<Symbol>, ks: seq<KernelRef>, ds: seq<Symbol>, s: Symbol)
    requires Pairable(Descriptors(symbols).Keys, Functions(symbols).Keys)
    requires Lists(ks, KernelRefs(Descriptors(symbols).Keys, Descriptors(symbols), Functions(symbols)))
    requires Lists(ds, SymbolsOf(Functions(symbols) - Described(Descriptors(symbols).Keys)))
    ensures Classified(symbols, ks, ds, s) == match KindOf(s)
                                              case FunctionKind => multiset(SymbolsOf(Functions(symbols)))[s]
                                              case DescriptorKind => multiset(SymbolsOf(Descriptors(symbols)))[s]
                                              case _ => Count(symbols, s)
  {
    hide KindOf, SymbolsOf, Lists, KernelRefs, Pairable, Described, DescriptorsIn, FunctionsIn, Select, ByNameTable,
         OfKind;
    var fs, kds := Functions(symbols), Descriptors(symbols);
    DescriptorsListed(ks, kds, fs);
    FunctionsListed(ks, ds, kds, fs);
    ListsCount(DescriptorsIn(ks), SymbolsOf(kds));
    ListsCount(FunctionsIn(ks) + ds, SymbolsOf(fs));
    CountConcat(FunctionsIn(ks), ds, s);
    TableKind(symbols, FunctionKind, s);
    TableKind(symbols, DescriptorKind, s);
    CountSelected(symbols, VariableKind, s);
    CountSelected(symbols, ExternKind, s);
    CountSelected(symbols, MiscKind, s);
  }

  /** When the classifier succeeds with every output given, each symbol is in the
      outputs as often as in the file exactly when functions have distinct names
      and descriptors have distinct names. */
  lemma SymbolsConserved(symbols: seq<Symbol>, ks: seq<KernelRef>, ds: seq<Symbol>)
    requires Pairable(Descriptors(symbols).Keys, Functions(symbols).Keys)
    requires Lists(ks, KernelRefs(Descriptors(symbols).Keys, Descriptors(symbols), Functions(symbols)))
    requires Lists(ds, SymbolsOf(Functions(symbols) - Described(Descriptors(symbols).Keys)))
    ensures (forall s :: Classified(symbols, ks, ds, s) == Count(symbols, s))
       <==> DistinctNames(symbols, FunctionKind) && DistinctNames(symbols, DescriptorKind)
  {
    hide KindOf, DistinctNames, SymbolsOf, Lists, KernelRefs, Pairable, Described, DescriptorsIn, FunctionsIn,
         Classified, Count, ByNameTable;
    forall s {
      ClassifiedCount(symbols, ks, ds, s);
    }
    TableCountsIffDistinct(symbols, FunctionKind);
    TableCountsIffDistinct(symbols, DescriptorKind);
  }
}
