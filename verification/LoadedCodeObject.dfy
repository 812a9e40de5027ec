/** The symbols a loaded code object lists, and the same symbols found by name. */
module LoadedCodeObject {
  import opened Wrappers
  import opened SymbolKinds

  /** `metadata` are the descriptor names of the kernels in the note metadata,
      `executable` the names the executable has a symbol for, and `lookup` is the
      search through the hash section. */
  datatype CodeObject = CodeObject(
    symbols: seq<Symbol>,
    metadata: Option<seq<string>>,
    executable: set<string>,
    lookup: string -> Result<Option<Symbol>, Error>)

  datatype Loaded =
    | Kernel(function_: Symbol, descriptor: Symbol)
    | DeviceFunction(function_: Symbol)
    | Variable(symbol: Symbol)
    | External(symbol: Symbol)

  function CreateKernel(o: CodeObject, f: Symbol, kd: Symbol): Result<Loaded, Error> {
    if o.metadata.None? then Err(NoMetadata)
    else if !kd.named then Err(BadName)
    else if kd.name !in o.executable then Err(NoExecutableSymbol)
    else if kd.name !in o.metadata.value then Err(NoMetadata)
    else Ok(Kernel(f, kd))
  }

  function CreateVariable(s: Symbol): Result<Loaded, Error> {
    if !s.named then Err(BadName) else Ok(Variable(s))
  }

  function CreateExternal(o: CodeObject, s: Symbol): Result<Loaded, Error> {
    if !s.named then Err(BadName)
    else if s.name !in o.executable then Err(NoExecutableSymbol)
    else Ok(External(s))
  }

  predicate IsVariable(s: Symbol) {
    s.ty == Object && !EndsWithKD(s.name)
  }

  predicate IsExternal(s: Symbol) {
    s.ty == NoType && s.isGlobal && s.name != "UNDEF"
  }

  // ---- the enumerations

  /** Functions and descriptors of the object by name. */
  method CollectKernelSymbols(o: CodeObject) returns (r: Result<(map<string, Symbol>, map<string, Symbol>), Error>)
    ensures r.Ok? <==> AllNamed(o.symbols)
    ensures r.Ok? ==> r.value == (Functions(o.symbols), Descriptors(o.symbols))
  {
    hide Select, ByNameTable, Insert, IsDescriptor, AllNamed;
    NoneUnnamed();
    var fs, kds := map[], map[];
    ghost var done: seq<Symbol> := [];
    NothingSelected(OfKind(FunctionKind));
    NothingSelected(OfKind(DescriptorKind));
    for n := 0 to |o.symbols|
      invariant done == o.symbols[..n] && AllNamed(done)
      invariant fs == Functions(done) && kds == Descriptors(done)
    {
      var s := o.symbols[n];
      if !s.named {
        NotNamed(o.symbols, s);
        return Err(BadName);
      }
      NamedStep(done, s);
      SelectStep(done, s, OfKind(FunctionKind));
      SelectStep(done, s, OfKind(DescriptorKind));
      if s.ty == Func {
        fs := Insert(fs, s);
      } else if IsDescriptor(s) {
        kds := Insert(kds, s);
      }
      done := done + [s];
    }
    assert o.symbols[..|o.symbols|] == o.symbols;
    return Ok((fs, kds));
  }

  /** Descriptor and function of a kernel in the metadata can be found and made a kernel. */
  ghost predicate Makeable(o: CodeObject, kd: string) {
    kd in Descriptors(o.symbols) && WithoutKD(kd) in Functions(o.symbols) && kd in o.executable
  }

  ghost predicate KernelsMakeable(o: CodeObject) {
    AllNamed(o.symbols) && o.metadata.Some? && forall i | 0 <= i < |o.metadata.value| ::
        Makeable(o, o.metadata.value[i])
  }

  ghost function KernelNamed(o: CodeObject, kd: string): Loaded
    requires Makeable(o, kd)
  {
    Kernel(Functions(o.symbols)[WithoutKD(kd)], Descriptors(o.symbols)[kd])
  }

  lemma TablesNamed(symbols: seq<Symbol>)
    requires AllNamed(symbols)
    ensures forall n | n in Functions(symbols) :: Functions(symbols)[n].named
    ensures forall n | n in Descriptors(symbols) :: Descriptors(symbols)[n].named
  {
  }

  /** The kernels come in the order of the metadata. */
  method GetKernelSymbols(o: CodeObject, out: SmallVector<Loaded>) returns (r: Result<(), Error>)
    modifies out
    ensures r.Ok? <==> KernelsMakeable(o)
    ensures r.Ok? ==> |out.items| == |old(out.items)| + |o.metadata.value| && old(out.items) <= out.items
    ensures r.Ok? ==> forall i | 0 <= i < |o.metadata.value| ::
              out.items[|old(out.items)| + i] == KernelNamed(o, o.metadata.value[i])
  {
    hide ByNameTable, WithoutKD, AllNamed;
    var collected := CollectKernelSymbols(o);
    if collected.Err? {
      return Err(collected.error);
    }
    TablesNamed(o.symbols);
    var (fs, kds) := collected.value;
    if o.metadata.None? {
      return Err(NoMetadata);
    }
    for i := 0 to |o.metadata.value|
      invariant |out.items| == |old(out.items)| + i && old(out.items) <= out.items
      invariant forall j | 0 <= j < i ::
                Makeable(o, o.metadata.value[j]) &&
                    out.items[|old(out.items)| + j] == KernelNamed(o, o.metadata.value[j])
    {
      var name := o.metadata.value[i];
      if name !in kds {
        return Err(NoDescriptor);
      }
      if WithoutKD(name) !in fs {
        return Err(NoKernelFunction);
      }
      var k := CreateKernel(o, fs[WithoutKD(name)], kds[name]);
      if k.Err? {
        return Err(k.error);
      }
      out.PushBack(k.value);
    }
    return Ok(());
  }

  ghost function Variables(ss: seq<Symbol>): (r: seq<Loaded>)
    ensures |r| == |ss| && forall i | 0 <= i < |ss| :: r[i] == Variable(ss[i])
  {
    seq(|ss|, i requires 0 <= i < |ss| => Variable(ss[i]))
  }

  lemma NoVariables()
    ensures Variables([]) == []
  {
  }

  lemma VariablesStep(ss: seq<Symbol>, s: Symbol)
    ensures Variables(ss + [s]) == Variables(ss) + [Variable(s)]
  {
  }

  method GetVariableSymbols(o: CodeObject, out: SmallVector<Loaded>) returns (r: Result<(), Error>)
    modifies out
    ensures r.Ok? <==> AllNamed(o.symbols)
    ensures r.Ok? ==> out.items == old(out.items) + Variables(Select(o.symbols, IsVariable))
  {
    hide Select, ByNameTable, Variables, IsVariable, AllNamed;
    NoneUnnamed();
    NoVariables();
    ghost var done: seq<Symbol> := [];
    NothingSelected(IsVariable);
    for n := 0 to |o.symbols|
      invariant done == o.symbols[..n] && AllNamed(done)
      invariant out.items == old(out.items) + Variables(Select(done, IsVariable))
    {
      var s := o.symbols[n];
      if !s.named {
        NotNamed(o.symbols, s);
        return Err(BadName);
      }
      NamedStep(done, s);
      SelectStep(done, s, IsVariable);
      VariablesStep(Select(done, IsVariable), s);
      if IsVariable(s) {
        var v := CreateVariable(s);
        out.PushBack(v.value);
      }
      done := done + [s];
    }
    assert o.symbols[..|o.symbols|] == o.symbols;
    return Ok(());
  }

  ghost function DeviceFunctionNames(o: CodeObject): set<string> {
    set n | n in Functions(o.symbols) && n + KD !in Descriptors(o.symbols)
  }

  ghost function DeviceFunctions(o: CodeObject, names: set<string>): set<Loaded> {
    set n | n in names && n in Functions(o.symbols) :: DeviceFunction(Functions(o.symbols)[n])
  }

  /** The functions come in whatever order their table has. */
  method GetDeviceFunctionSymbols(o: CodeObject, out: SmallVector<Loaded>) returns (r: Result<(), Error>)
    modifies out
    ensures r.Ok? <==> AllNamed(o.symbols)
    ensures r.Ok? ==> Extended(out, old(out.items), DeviceFunctions(o, DeviceFunctionNames(o)))
  {
    hide ByNameTable, AllNamed, Lists, Descriptors;
    var collected := CollectKernelSymbols(o);
    if collected.Err? {
      return Err(collected.error);
    }
    var (fs, kds) := collected.value;
    var todo := fs.Keys;
    ghost var l: seq<Loaded> := [];
    NoDevices(o);
    ghost var done: set<string> := {};
    assert done * DeviceFunctionNames(o) == {};
    while todo != {}
      invariant todo + done == fs.Keys && todo !! done
      invariant Lists(l, DeviceFunctions(o, done * DeviceFunctionNames(o))) && out.items == old(out.items) + l
      decreases todo
    {
      var n :| n in todo;
      if n + KD !in kds {
        DeviceStep(o, l, done * DeviceFunctionNames(o), n);
        assert (done + {n}) * DeviceFunctionNames(o) == done * DeviceFunctionNames(o) + {n};
        out.PushBack(DeviceFunction(fs[n]));
        l := l + [DeviceFunction(fs[n])];
      } else {
        assert (done + {n}) * DeviceFunctionNames(o) == done * DeviceFunctionNames(o);
      }
      todo, done := todo - {n}, done + {n};
    }
    assert done * DeviceFunctionNames(o) == DeviceFunctionNames(o);
    assert out.items[|old(out.items)|..] == l;
    return Ok(());
  }

  lemma NoDevices(o: CodeObject)
    ensures Lists([], DeviceFunctions(o, {}))
  {
  }

  lemma DeviceStep(o: CodeObject, l: seq<Loaded>, names: set<string>, n: string)
    requires Lists(l, DeviceFunctions(o, names)) && n !in names && n in Functions(o.symbols)
    ensures Lists(l + [DeviceFunction(Functions(o.symbols)[n])], DeviceFunctions(o, names + {n}))
  {
    var f := DeviceFunction(Functions(o.symbols)[n]);
    ListsPush(l, DeviceFunctions(o, names), f);
    assert DeviceFunctions(o, names + {n}) == DeviceFunctions(o, names) + {f};
  }

  ghost function Externals(ss: seq<Symbol>): (r: seq<Loaded>)
    ensures |r| == |ss| && forall i | 0 <= i < |ss| :: r[i] == External(ss[i])
  {
    seq(|ss|, i requires 0 <= i < |ss| => External(ss[i]))
  }

  ghost predicate AllIn(ss: seq<Symbol>, names: set<string>) {
    forall s | s in ss :: s.name in names
  }

  lemma AllInStep(ss: seq<Symbol>, s: Symbol, names: set<string>)
    ensures AllIn(ss + [s], names) <==> AllIn(ss, names) && s.name in names
    ensures Externals(ss + [s]) == Externals(ss) + [External(s)]
  {
    assert s in ss + [s] && forall x | x in ss :: x in ss + [s];
  }

  lemma NoExternals(names: set<string>)
    ensures AllIn([], names) && Externals([]) == []
  {
  }

  ghost predicate ExternalsMakeable(o: CodeObject) {
    AllNamed(o.symbols) && AllIn(Select(o.symbols, IsExternal), o.executable)
  }

  lemma NotAllIn(o: CodeObject, s: Symbol)
    requires s in o.symbols && IsExternal(s) && s.name !in o.executable
    ensures !ExternalsMakeable(o)
  {
    assert s in Select(o.symbols, IsExternal);
  }

  method GetExternalSymbols(o: CodeObject, out: SmallVector<Loaded>) returns (r: Result<(), Error>)
    modifies out
    ensures r.Ok? <==> ExternalsMakeable(o)
    ensures r.Ok? ==> out.items == old(out.items) + Externals(Select(o.symbols, IsExternal))
  {
    hide Select, ByNameTable, AllIn, Externals, IsExternal, AllNamed;
    NoneUnnamed();
    NoExternals(o.executable);
    ghost var done: seq<Symbol> := [];
    NothingSelected(IsExternal);
    for n := 0 to |o.symbols|
      invariant done == o.symbols[..n] && AllNamed(done) && AllIn(Select(done, IsExternal), o.executable)
      invariant out.items == old(out.items) + Externals(Select(done, IsExternal))
    {
      var s := o.symbols[n];
      if !s.named {
        NotNamed(o.symbols, s);
        return Err(BadName);
      }
      NamedStep(done, s);
      SelectStep(done, s, IsExternal);
      AllInStep(Select(done, IsExternal), s, o.executable);
      if IsExternal(s) {
        var e := CreateExternal(o, s);
        if e.Err? {
          NotAllIn(o, s);
          return Err(e.error);
        }
        out.PushBack(e.value);
      }
      done := done + [s];
    }
    assert o.symbols[..|o.symbols|] == o.symbols;
    return Ok(());
  }

  // ---- looking a symbol up by name

  function ByName(o: CodeObject, name: string): Result<Option<Loaded>, Error> {
    var found := o.lookup(name);
    if found.Err? then Err(found.error)
    else if found.value.None? then Ok(None)
    else
      var s := found.value.value;
      if (s.ty == Object && EndsWithKD(name) && s.size == 64) || (s.ty == HsaKernel && s.size == 64) then
        var f := o.lookup(WithoutKD(name));
        if f.Err? then Err(f.error)
        else if f.value.None? then Err(NoKernelFunction)
        else Wrap(CreateKernel(o, f.value.value, s))
      else if s.ty == Func then
        var kd := o.lookup(name + KD);
        if kd.Err? then Err(kd.error)
        else if kd.value.Some? then Wrap(CreateKernel(o, s, kd.value.value))
        else Ok(Some(DeviceFunction(s)))
      else if s.ty == Object then Wrap(CreateVariable(s))
      else if s.ty == NoType && s.isGlobal && name != "UNDEF" then Wrap(CreateExternal(o, s))
      else Ok(None)
  }

  function Wrap(r: Result<Loaded, Error>): Result<Option<Loaded>, Error> {
    if r.Ok? then Ok(Some(r.value)) else Err(r.error)
  }

  /** The enumerations list this symbol. */
  ghost predicate Listed(o: CodeObject, x: Loaded) {
    match x
    case Kernel(f, kd) => o.metadata.Some? && kd.name in o.metadata.value && Makeable(o, kd.name) &&
        x == KernelNamed(o, kd.name)
    case DeviceFunction(f) => f.name in DeviceFunctionNames(o) && f == Functions(o.symbols)[f.name]
    case Variable(s) => s in o.symbols && IsVariable(s)
    case External(s) => s in o.symbols && IsExternal(s)
  }

  lemma MakeableAreNamed(o: CodeObject)
    ensures KernelsMakeable(o) ==> AllNamed(o.symbols)
  {
  }

  /** All four enumerations one after the other. */
  method GetLoadedCodeObjectSymbols(o: CodeObject, out: SmallVector<Loaded>) returns (r: Result<(), Error>)
    modifies out
    ensures r.Ok? <==> KernelsMakeable(o) && ExternalsMakeable(o)
    ensures r.Ok? ==> old(out.items) <= out.items && forall x :: x in out.items[|old(out.items)|..] <==> Listed(o, x)
  {
    hide KernelsMakeable, ExternalsMakeable, Lists, Select, ByNameTable, DeviceFunctions;
    ghost var before := out.items;
    r := GetKernelSymbols(o, out);
    MakeableAreNamed(o);
    if r.Err? {
      return;
    }
    ghost var ks := out.items[|before|..];
    r := GetDeviceFunctionSymbols(o, out);
    ghost var ds := out.items[|before| + |ks|..];
    r := GetVariableSymbols(o, out);
    r := GetExternalSymbols(o, out);
    if r.Ok? {
      assert out.items == before +
          (ks + ds + Variables(Select(o.symbols, IsVariable)) + Externals(Select(o.symbols, IsExternal)));
      ListedExactly(o, ks, ds);
    }
  }

  lemma ListedExactly(o: CodeObject, ks: seq<Loaded>, ds: seq<Loaded>)
    requires KernelsMakeable(o) && |ks| == |o.metadata.value| && forall i | 0 <= i < |ks| ::
              ks[i] == KernelNamed(o, o.metadata.value[i])
    requires Lists(ds, DeviceFunctions(o, DeviceFunctionNames(o)))
    ensures
      var vs, es := Variables(Select(o.symbols, IsVariable)), Externals(Select(o.symbols, IsExternal));
      forall x :: x in ks + ds + vs + es <==> Listed(o, x)
  {
    hide WithoutKD, ByNameTable, Select;
    var vs, es := Select(o.symbols, IsVariable), Select(o.symbols, IsExternal);
    forall x ensures x in ks + ds + Variables(vs) + Externals(es) <==> Listed(o, x) {
      match x {
        case Kernel(f, kd) =>
          assert x in ks + ds + Variables(vs) + Externals(es) <==> x in ks;
          if x in ks {
            var i :| 0 <= i < |ks| && ks[i] == x;
            assert o.metadata.value[i] in o.metadata.value;
          }
          if Listed(o, x) {
            var i :| 0 <= i < |o.metadata.value| && o.metadata.value[i] == kd.name;
            assert ks[i] == x;
          }
        case DeviceFunction(f) =>
          assert x in ks + ds + Variables(vs) + Externals(es) <==> x in ds;
        case Variable(s) =>
          assert x in ks + ds + Variables(vs) + Externals(es) <==> x in Variables(vs);
          if s in vs {
            var i :| 0 <= i < |vs| && vs[i] == s;
            assert Variables(vs)[i] == x;
          }
        case External(s) =>
          assert x in ks + ds + Variables(vs) + Externals(es) <==> x in Externals(es);
          if s in es {
            var i :| 0 <= i < |es| && es[i] == s;
            assert Externals(es)[i] == x;
          }
      }
    }
  }

  // ---- names and enumerations agree

  ghost predicate UniqueNames(symbols: seq<Symbol>) {
    forall s, t | s in symbols && t in symbols && s.name == t.name :: s == t
  }

  /** The hash section finds every symbol of a kind that matters, by its own name. */
  ghost predicate Covers(o: CodeObject, name: string) {
    var found := o.lookup(name);
    && found.Ok?
    && (found.value.Some? ==> found.value.value in o.symbols && found.value.value.name == name)
    && (found.value.None? ==> forall s | s in o.symbols && s.name == name :: KindOf(s) == MiscKind)
  }

  /** Symbols have unique names the hash section covers, the enumerations succeed,
      and the metadata leaves out no descriptor. */
  ghost predicate Regular(o: CodeObject) {
    && UniqueNames(o.symbols) && (forall n :: Covers(o, n))
    && KernelsMakeable(o) && ExternalsMakeable(o)
    && (forall kd | kd in Descriptors(o.symbols) :: kd in o.metadata.value)
  }

  function NamesOf(x: Loaded): set<string> {
    match x
    case Kernel(f, kd) => {f.name, kd.name}
    case DeviceFunction(f) => {f.name}
    case Variable(s) => {s.name}
    case External(s) => {s.name}
  }

  /** Looking the name up gives the one listed symbol that has it, or nothing when
      there is none. */
  ghost predicate AgreesAt(o: CodeObject, name: string) {
    ByName(o, name).Ok? && forall x :: ByName(o, name) == Ok(Some(x)) <==> Listed(o, x) && name in NamesOf(x)
  }

  /** ".kd" marks descriptors and nothing else that a lookup could mistake for one. */
  ghost predicate Separable(o: CodeObject) {
    && (forall s | s in o.symbols && s.ty == Object && EndsWithKD(s.name) :: s.size == 64)
    && (forall f | f in o.symbols && f.ty == Func :: KernelBeside(o, f))
    && (forall s | s in o.symbols && IsDescriptor(s) :: EndsWithKD(s.name))
  }

  ghost predicate KernelBeside(o: CodeObject, f: Symbol) {
    var kd := o.lookup(f.name + KD);
    kd.Ok? && kd.value.Some? ==> IsDescriptor(kd.value.value)
  }

  lemma Found(o: CodeObject, s: Symbol)
    requires Regular(o) && s in o.symbols && KindOf(s) != MiscKind
    ensures o.lookup(s.name) == Ok(Some(s)) && s.named && o.metadata.Some?
    ensures s.ty == Func ==> s.name in Functions(o.symbols) && Functions(o.symbols)[s.name] == s
    ensures IsDescriptor(s) ==>
              s.name in Descriptors(o.symbols) && Descriptors(o.symbols)[s.name] == s && s.name in o.metadata.value &&
                  Makeable(o, s.name)
    ensures IsExternal(s) ==> s.name in o.executable
  {
    hide WithoutKD, EndsWithKD, ByNameTable, KernelBeside;
    assert Covers(o, s.name);
    if IsExternal(s) {
      assert s in Select(o.symbols, IsExternal);
    }
    if IsDescriptor(s) {
      assert s.name in Descriptors(o.symbols) && s.name in o.metadata.value;
      var i :| 0 <= i < |o.metadata.value| && o.metadata.value[i] == s.name;
      assert Makeable(o, o.metadata.value[i]);
    }
  }

  /** A listed symbol is in the file under each of its names. */
  lemma ListedFound(o: CodeObject, x: Loaded)
    requires Regular(o) && Listed(o, x)
    ensures match x
            case Kernel(f, kd) => kd.name in o.metadata.value && f in o.symbols && f.ty == Func &&
                f.name == WithoutKD(kd.name) && kd in o.symbols && IsDescriptor(kd) && KindOf(kd) == DescriptorKind
            case DeviceFunction(f) => f in o.symbols && f.ty == Func
            case Variable(s) => s in o.symbols && s.ty == Object && KindOf(s) == VariableKind
            case External(s) => s in o.symbols && s.ty == NoType && KindOf(s) == ExternKind
  {
    hide WithoutKD, ByNameTable;
  }

  lemma AgreesAtDescriptor(o: CodeObject, s: Symbol)
    requires Regular(o) && Separable(o) && s in o.symbols && IsDescriptor(s) && s.ty != Func
    ensures AgreesAt(o, s.name)
  {
    hide WithoutKD, EndsWithKD, ByNameTable, Select, KernelsMakeable, ExternalsMakeable, KernelBeside;
    Found(o, s);
    var f := Functions(o.symbols)[WithoutKD(s.name)];
    Found(o, f);
    assert f.name == WithoutKD(s.name);
    assert o.lookup(WithoutKD(s.name)) == Ok(Some(f));
    assert CreateKernel(o, f, s) == Ok(Kernel(f, s));
    assert ByName(o, s.name) == Ok(Some(Kernel(f, s)));
    forall x | Listed(o, x) && s.name in NamesOf(x) ensures x == Kernel(f, s) {
      ListedFound(o, x);
    }
  }

  lemma AgreesAtKernelFunction(o: CodeObject, s: Symbol)
    requires Regular(o) && Separable(o) && s in o.symbols && s.ty == Func && o.lookup(s.name + KD).Ok? &&
             o.lookup(s.name + KD).value.Some?
    ensures AgreesAt(o, s.name)
  {
    hide WithoutKD, EndsWithKD, ByNameTable, Select, KernelsMakeable, ExternalsMakeable;
    Found(o, s);
    assert Covers(o, s.name + KD) && KernelBeside(o, s);
    WithoutKDUndoes(s.name);
    var kd := o.lookup(s.name + KD).value.value;
    Found(o, kd);
    assert ByName(o, s.name) == Ok(Some(Kernel(s, kd)));
    forall x | Listed(o, x) && s.name in NamesOf(x) ensures x == Kernel(s, kd) {
      ListedFound(o, x);
      if x.Kernel? {
        WithoutKDUndoes(x.descriptor.name);
      }
    }
  }

  lemma AgreesAtPlainFunction(o: CodeObject, s: Symbol)
    requires Regular(o) && Separable(o) && s in o.symbols && s.ty == Func && o.lookup(s.name + KD).Ok? &&
             o.lookup(s.name + KD).value.None?
    ensures AgreesAt(o, s.name)
  {
    hide WithoutKD, EndsWithKD, ByNameTable, Select, KernelsMakeable, ExternalsMakeable, KernelBeside;
    Found(o, s);
    assert Covers(o, s.name + KD);
    assert ByName(o, s.name) == Ok(Some(DeviceFunction(s)));
    forall x | Listed(o, x) && s.name in NamesOf(x) ensures x == DeviceFunction(s) {
      ListedFound(o, x);
      if x.Kernel? {
        WithoutKDUndoes(x.descriptor.name);
        Found(o, x.descriptor);
      }
    }
  }

  lemma AgreesAtOther(o: CodeObject, s: Symbol)
    requires Regular(o) && Separable(o) && s in o.symbols && s.ty != Func && !IsDescriptor(s) &&
              o.lookup(s.name) == Ok(Some(s))
    ensures AgreesAt(o, s.name)
  {
    hide WithoutKD, ByNameTable, Select, KernelsMakeable, ExternalsMakeable, KernelBeside;
    if KindOf(s) != MiscKind {
      Found(o, s);
    }
    assert s.named by {
      MakeableAreNamed(o);
    }
    forall x | Listed(o, x) && s.name in NamesOf(x) ensures ByName(o, s.name) == Ok(Some(x)) {
      ListedFound(o, x);
    }
  }

  lemma AgreesAtNothing(o: CodeObject, name: string)
    requires Regular(o) && o.lookup(name) == Ok(None)
    ensures AgreesAt(o, name)
  {
    hide WithoutKD, EndsWithKD, ByNameTable, Select, KernelsMakeable, ExternalsMakeable, KernelBeside;
    assert Covers(o, name);
    forall x | Listed(o, x) ensures name !in NamesOf(x) {
      ListedFound(o, x);
    }
  }

  lemma NotSeparable(o: CodeObject)
    requires Regular(o) && !Separable(o)
    ensures exists name :: !AgreesAt(o, name)
  {
    hide WithoutKD, EndsWithKD, ByNameTable, Select, KernelsMakeable, ExternalsMakeable;
    if s :| s in o.symbols && s.ty == Object && EndsWithKD(s.name) && s.size != 64 {
      Found(o, s);
      assert ByName(o, s.name) == Ok(Some(Variable(s)));
      assert !AgreesAt(o, s.name);
    } else if f :| f in o.symbols && f.ty == Func && !KernelBeside(o, f) {
      Found(o, f);
      assert Covers(o, f.name + KD);
      var kd := o.lookup(f.name + KD).value.value;
      if Listed(o, Kernel(f, kd)) {
        ListedFound(o, Kernel(f, kd));
        assert false;
      }
      assert !AgreesAt(o, f.name);
    } else {
      var s :| s in o.symbols && IsDescriptor(s) && !EndsWithKD(s.name);
      MisnamedDescriptor(o, s);
    }
  }

  lemma MisnamedDescriptor(o: CodeObject, s: Symbol)
    requires Regular(o) && s in o.symbols && IsDescriptor(s) && s.ty != Func && !EndsWithKD(s.name)
    ensures exists name :: !AgreesAt(o, name)
  {
    hide WithoutKD, ByNameTable, Select, KernelsMakeable, ExternalsMakeable;
    Found(o, s);
    var f := Functions(o.symbols)[WithoutKD(s.name)];
    Found(o, f);
    assert Covers(o, f.name + KD);
    assert (f.name + KD)[|f.name|..] == KD;
    assert Listed(o, Kernel(f, s)) && f.name in NamesOf(Kernel(f, s));
    assert ByName(o, f.name) != Ok(Some(Kernel(f, s)));
    assert !AgreesAt(o, f.name);
  }

  /** Lookup by name agrees with the enumerations at every name exactly when ".kd"
      separates descriptors from everything else. */
  lemma NamesAgree(o: CodeObject)
    requires Regular(o)
    ensures (forall name :: AgreesAt(o, name)) <==> Separable(o)
  {
    hide AgreesAt, Separable, Regular;
    if Separable(o) {
      forall name ensures AgreesAt(o, name) {
        AgreesAtName(o, name);
      }
    } else {
      NotSeparable(o);
    }
  }

  lemma AgreesAtName(o: CodeObject, name: string)
    requires Regular(o) && Separable(o)
    ensures AgreesAt(o, name)
  {
    hide AgreesAt, Separable, IsDescriptor;
    assert Covers(o, name);
    if o.lookup(name).value.None? {
      AgreesAtNothing(o, name);
    } else {
      var s := o.lookup(name).value.value;
      if s.ty == Func {
        assert Covers(o, name + KD);
        if o.lookup(name + KD).value.Some? {
          AgreesAtKernelFunction(o, s);
        } else {
          AgreesAtPlainFunction(o, s);
        }
      } else if IsDescriptor(s) {
        AgreesAtDescriptor(o, s);
      } else {
        AgreesAtOther(o, s);
      }
    }
  }

  /** No symbol is in two of the enumerations, nor twice in one. */
  lemma ListedDisjoint(o: CodeObject, x: Loaded, y: Loaded)
    requires Regular(o) && Separable(o) && Listed(o, x) && Listed(o, y) && NamesOf(x) * NamesOf(y) != {}
    ensures x == y
  {
    hide Separable, Regular, Listed, NamesOf;
    var name :| name in NamesOf(x) && name in NamesOf(y);
    NamesAgree(o);
    assert AgreesAt(o, name);
  }
}
