/** The classification of symbols and the lists of a code object, in terms of types, sizes,
    bindings and names alone. */
module SymbolFacts {
  import opened Wrappers
  import opened SymbolKinds
  import opened LoadedCodeObject

  // ---- names

  ghost predicate EndsInKD(name: string) {
    exists m: string :: name == m + ".kd"
  }

  lemma EndsWithKDExact(name: string)
    ensures EndsWithKD(name) <==> EndsInKD(name)
  {
    if EndsWithKD(name) {
      assert name == name[..|name| - 3] + ".kd";
    }
    if m: string :| name == m + ".kd" {
      assert name[|m|..] == ".kd";
    }
  }

  predicate KDAt(name: string, i: nat) {
    i + 3 <= |name| && name[i] == '.' && name[i + 1] == 'k' && name[i + 2] == 'd'
  }

  /** The name is cut at the last `.kd` in it, wherever that is, and left alone without. */
  lemma WithoutKDExact(name: string)
    ensures (forall i: nat :: !KDAt(name, i)) ==> WithoutKD(name) == name
    ensures forall i: nat | KDAt(name, i) && forall j: nat | j > i :: !KDAt(name, j) :: WithoutKD(name) == name[..i]
  {
    forall i: nat ensures KDAt(name, i) <==> i <= |name| && KD <= name[i..] {
      if i + 3 <= |name| {
        assert name[i..][0] == name[i] && name[i..][1] == name[i + 1] && name[i..][2] == name[i + 2];
      }
    }
  }

  // ---- kinds

  ghost predicate IsKD(s: Symbol) {
    s.size == 64 && (s.ty == HsaKernel || (s.ty == Object && EndsInKD(s.name)))
  }

  /** Each kind, and that every symbol has one. */
  lemma KindExact(s: Symbol)
    ensures KindOf(s) == FunctionKind <==> s.ty == Func
    ensures KindOf(s) == DescriptorKind <==> IsKD(s)
    ensures KindOf(s) == VariableKind <==> s.ty == Object && !(s.size == 64 && EndsInKD(s.name))
    ensures KindOf(s) == ExternKind <==> s.ty == NoType && s.isGlobal
    ensures KindOf(s) == MiscKind <==>
              || s.ty.OtherType?
              || (s.ty == NoType && !s.isGlobal)
              || (s.ty == HsaKernel && s.size != 64)
  {
    EndsWithKDExact(s.name);
  }

  // ---- selections and tables

  lemma SelectOne(s: Symbol, p: Symbol -> bool)
    ensures Select([s], p) == if p(s) then [s] else []
  {
    SelectStep([], s, p);
    assert [] + [s] == [s];
  }

  /** Selecting keeps the order, and takes every symbol as often as it is there. */
  lemma {:induction false} SelectInOrder(a: seq<Symbol>, b: seq<Symbol>, p: Symbol -> bool)
    ensures Select(a + b, p) == Select(a, p) + Select(b, p)
    decreases |b|
  {
    if b == [] {
      NothingSelected(p);
      assert a + b == a;
    } else {
      var n := |b| - 1;
      SelectInOrder(a, b[..n], p);
      var c, s := b[..n], b[n];
      assert b == c + [s] && a + b == (a + c) + [s];
      SelectSteps(a, c, s, p);
    }
  }

  lemma Associates(a: seq<Symbol>, b: seq<Symbol>, c: seq<Symbol>)
    ensures (a + b) + c == a + (b + c)
  {
  }

  lemma SelectSteps(a: seq<Symbol>, c: seq<Symbol>, s: Symbol, p: Symbol -> bool)
    requires Select(a + c, p) == Select(a, p) + Select(c, p)
    ensures Select((a + c) + [s], p) == Select(a, p) + Select(c + [s], p)
  {
    hide Select, ByNameTable;
    SelectStep(a + c, s, p);
    SelectStep(c, s, p);
    Associates(Select(a, p), Select(c, p), [s]);
  }

  /** The first symbol of its name that has the property. */
  ghost predicate First(symbols: seq<Symbol>, p: Symbol -> bool, i: nat) {
    i < |symbols| && p(symbols[i]) && forall s | s in symbols[..i] && p(s) :: s.name != symbols[i].name
  }

  /** A table holds the first symbol of each name. */
  lemma {:induction false} FirstStays(symbols: seq<Symbol>, p: Symbol -> bool, i: nat)
    requires First(symbols, p, i)
    ensures symbols[i].name in ByNameTable(symbols, p) && ByNameTable(symbols, p)[symbols[i].name] == symbols[i]
    decreases |symbols|
  {
    hide ByNameTable;
    var n := |symbols| - 1;
    assert symbols == symbols[..n] + [symbols[n]];
    SelectStep(symbols[..n], symbols[n], p);
    if i < n {
      assert symbols[..n][..i] == symbols[..i];
      FirstStays(symbols[..n], p, i);
    }
  }

  // ---- what a code object lists

  /** When all external symbols and all kernels can be made. */
  lemma MakeableExact(o: CodeObject)
    ensures ExternalsMakeable(o) <==>
              && (forall s | s in o.symbols :: s.named)
              && (forall s | s in o.symbols && s.ty == NoType && s.isGlobal && s.name != "UNDEF" ::
                    s.name in o.executable)
    ensures KernelsMakeable(o) <==>
              && (forall s | s in o.symbols :: s.named) && o.metadata.Some?
              && forall kd | kd in o.metadata.value :: HasKernel(o, kd)
  {
    assert AllNamed(o.symbols) <==> forall s | s in o.symbols :: s.named;
    forall kd ensures Makeable(o, kd) <==> HasKernel(o, kd) {
      KernelExact(o, kd);
    }
    hide Makeable, HasKernel;
    if o.metadata.Some? {
      assert forall i | 0 <= i < |o.metadata.value| :: o.metadata.value[i] in o.metadata.value;
    }
  }

  /** The descriptor and its function are there, and the runtime knows the kernel. */
  ghost predicate HasKernel(o: CodeObject, kd: string) {
    && kd in o.executable && (exists d :: d in o.symbols && IsKD(d) && d.name == kd)
    && exists f :: f in o.symbols && f.ty == Func && f.name == WithoutKD(kd)
  }

  lemma KernelExact(o: CodeObject, kd: string)
    ensures Makeable(o, kd) <==> HasKernel(o, kd)
  {
    forall s: Symbol ensures IsDescriptor(s) <==> IsKD(s) {
      EndsWithKDExact(s.name);
    }
    hide IsKD, IsDescriptor, EndsInKD, WithoutKD, Functions, Descriptors;
    if Makeable(o, kd) {
      var d, f := Descriptors(o.symbols)[kd], Functions(o.symbols)[WithoutKD(kd)];
      assert d in o.symbols && IsKD(d) && d.name == kd;
      assert f in o.symbols && f.ty == Func && f.name == WithoutKD(kd);
    }
  }

  /** The answers of the lookup by name that end it. */
  lemma NothingFound(o: CodeObject, name: string)
    ensures o.lookup(name).Err? ==> ByName(o, name) == Err(o.lookup(name).error)
    ensures o.lookup(name) == Ok(None) ==> ByName(o, name) == Ok(None)
  {
  }

  ghost predicate CanMakeKernel(o: CodeObject, kd: Symbol) {
    o.metadata.Some? && kd.named && kd.name in o.executable && kd.name in o.metadata.value
  }

  /** A descriptor is found: it leads to the kernel of the function named without the
      suffix, which has to be there. */
  lemma DescriptorFound(o: CodeObject, name: string, kd: Symbol)
    requires o.lookup(name) == Ok(Some(kd)) && kd.size == 64
    requires kd.ty == HsaKernel || (kd.ty == Object && EndsInKD(name))
    ensures var f := o.lookup(WithoutKD(name));
            && (f.Err? ==> ByName(o, name) == Err(f.error))
            && (f == Ok(None) ==> ByName(o, name) == Err(NoKernelFunction))
            && (f.Ok? && f.value.Some? ==>
                  if CanMakeKernel(o, kd) then ByName(o, name) == Ok(Some(Kernel(f.value.value, kd)))
                  else ByName(o, name).Err?)
  {
    EndsWithKDExact(name);
    hide WithoutKD, EndsInKD, EndsWithKD;
  }

  /** A function is found: with a symbol named after it with the suffix it leads to a
      kernel, and to a device function without. */
  lemma FunctionFound(o: CodeObject, name: string, f: Symbol)
    requires o.lookup(name) == Ok(Some(f)) && f.ty == Func
    ensures var kd := o.lookup(name + ".kd");
            && (kd.Err? ==> ByName(o, name) == Err(kd.error))
            && (kd == Ok(None) ==> ByName(o, name) == Ok(Some(DeviceFunction(f))))
            && (kd.Ok? && kd.value.Some? ==>
                  if CanMakeKernel(o, kd.value.value) then ByName(o, name) == Ok(Some(Kernel(f, kd.value.value)))
                  else ByName(o, name).Err?)
  {
    assert KD == ".kd";
    hide WithoutKD, EndsInKD, EndsWithKD;
  }

  /** Anything else is found: a variable, an external symbol, or none that is listed. */
  lemma OtherFound(o: CodeObject, name: string, s: Symbol)
    requires o.lookup(name) == Ok(Some(s)) && s.ty != Func
    requires !(s.size == 64 && (s.ty == HsaKernel || (s.ty == Object && EndsInKD(name))))
    ensures s.ty == Object ==> ByName(o, name) == if s.named then Ok(Some(Variable(s))) else Err(BadName)
    ensures s.ty == NoType && s.isGlobal && name != "UNDEF" ==>
              if s.named && s.name in o.executable then ByName(o, name) == Ok(Some(External(s)))
              else ByName(o, name).Err?
    ensures s.ty != Object && !(s.ty == NoType && s.isGlobal && name != "UNDEF") ==> ByName(o, name) == Ok(None)
  {
    EndsWithKDExact(name);
    hide WithoutKD, EndsInKD, EndsWithKD;
  }

  /** Where names are unique: the kernels are the pairs of a function and the descriptor
      named after it that the metadata names and the runtime knows; device functions have
      no descriptor named after them; and so on. */
  lemma ListedExact(o: CodeObject, x: Loaded)
    requires UniqueNames(o.symbols)
    ensures Listed(o, x) <==>
              match x
              case Kernel(f, kd) =>
                && f in o.symbols && f.ty == Func && kd in o.symbols && IsKD(kd) && f.name == WithoutKD(kd.name)
                && o.metadata.Some? && kd.name in o.metadata.value && kd.name in o.executable
              case DeviceFunction(f) =>
                f in o.symbols && f.ty == Func && forall d | d in o.symbols && IsKD(d) :: d.name != f.name + ".kd"
              case Variable(s) => s in o.symbols && s.ty == Object && !EndsInKD(s.name)
              case External(s) => s in o.symbols && s.ty == NoType && s.isGlobal && s.name != "UNDEF"
  {
    forall s: Symbol ensures IsDescriptor(s) <==> IsKD(s) {
      EndsWithKDExact(s.name);
    }
    hide IsKD, IsDescriptor, EndsInKD, WithoutKD, Functions, Descriptors;
    match x {
      case Kernel(f, kd) =>
      case DeviceFunction(f) =>
        assert KD == ".kd";
      case Variable(s) => EndsWithKDExact(s.name);
      case External(s) =>
    }
  }
}
