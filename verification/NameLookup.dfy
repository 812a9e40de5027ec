/** A hash section as the lookup a code object relies on. */
module NameLookup {
  import opened Wrappers
  import opened SymbolKinds
  import opened LoadedCodeObject
  import ElfHash

  /** The symbol table linked to a hash section holds the symbols of the object, and
      those before the first one the section covers are of no kind that matters. */
  ghost predicate SameTable(o: CodeObject, t: ElfHash.Symbols, from: nat) {
    && |t.syms| == |o.symbols|
    && (forall i | 0 <= i < |t.syms| :: t.Named(i) && t.NameOf(i) == o.symbols[i].name)
    && (forall i | 0 <= i < |t.syms| && i < from :: KindOf(o.symbols[i]) == MiscKind)
  }

  /** The answer of the hash section, as the symbol it stands for. */
  function AsSymbol(symbols: seq<Symbol>, r: Result<Option<nat>, ElfHash.Error>): Result<Option<Symbol>, Error> {
    if r.Err? then Err(LookupFailed)
    else if r.value.Some? && r.value.value < |symbols| then Ok(Some(symbols[r.value.value]))
    else Ok(None)
  }

  /** A sound hash section over the symbols of the object covers every name. */
  lemma HashSectionCovers(o: CodeObject, hs: ElfHash.Hashes, bufSize: nat, sec: ElfHash.Section, name: string,
                          r: Result<Option<nat>, ElfHash.Error>)
    requires ElfHash.Sound(hs, bufSize, sec) && ElfHash.SectionAnswer(hs, bufSize, sec, name, r)
    requires SameTable(o, sec.link.value, ElfHash.FirstCovered(sec.table))
    requires o.lookup(name) == AsSymbol(o.symbols, r)
    ensures Covers(o, name)
  {
    var t, from := sec.link.value, ElfHash.FirstCovered(sec.table);
    if r.value.None? {
      forall s | s in o.symbols && s.name == name ensures KindOf(s) == MiscKind {
        var i :| 0 <= i < |o.symbols| && o.symbols[i] == s;
        assert t.Matches(i, name);
      }
    } else {
      assert t.Matches(r.value.value, name);
    }
  }
}
