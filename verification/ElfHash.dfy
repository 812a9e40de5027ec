/** Looking a symbol up through the hash sections of an ELF object. */
module ElfHash {
  import opened Wrappers

  type Word = w: nat | w < 0x1_0000_0000

  datatype Error = BadNameOffset | BadSymbolIndex | NotAHashSection | BadLink | OutsideFile | TooSmall | NoHashSection

  datatype Sym = Sym(stName: nat)

  /** The symbols a hash section is about, and the strings naming them. */
  datatype Symbols = Symbols(syms: seq<Sym>, strTab: string) {
    predicate Named(i: nat)
      requires i < |syms|
    {
      syms[i].stName < |strTab|
    }

    /** The zero-terminated string the symbol's name offset points at. */
    function NameOf(i: nat): string
      requires i < |syms| && Named(i)
    {
      CString(strTab, syms[i].stName)
    }

    predicate Matches(i: nat, name: string) {
      i < |syms| && Named(i) && NameOf(i) == name
    }
  }

  function CString(s: string, at: nat): string
    requires at <= |s|
    decreases |s| - at
  {
    if at == |s| || s[at] == '\0' then "" else [s[at]] + CString(s, at + 1)
  }

  /** The bytes from `at` on are those of the name and then a zero, or the end. */
  ghost predicate Spelled(s: string, at: nat, name: string) {
    && at + |name| <= |s| && s[at..at + |name|] == name && (at + |name| == |s| || s[at + |name|] == '\0')
  }

  lemma {:induction false} CStringExact(s: string, at: nat, name: string)
    requires at <= |s|
    ensures CString(s, at) == name <==> '\0' !in name && Spelled(s, at, name)
    decreases |s| - at
  {
    if at < |s| && s[at] != '\0' {
      if name != "" {
        CStringExact(s, at + 1, name[1..]);
        assert name == [name[0]] + name[1..];
        if at + |name| <= |s| {
          assert s[at..at + |name|] == [s[at]] + s[at + 1..at + |name|];
        }
      }
    } else if name != "" && at + |name| <= |s| {
      assert s[at..at + |name|][0] == s[at];
    }
  }

  /** A symbol has a name exactly when its name offset is inside the string table and the
      name stands there, zero-terminated. No symbol has a name with a zero in it. */
  lemma MatchesExact(t: Symbols, i: nat, name: string)
    ensures t.Matches(i, name) <==>
              && i < |t.syms| && t.syms[i].stName < |t.strTab| && '\0' !in name
              && t.syms[i].stName + |name| <= |t.strTab|
              && t.strTab[t.syms[i].stName..t.syms[i].stName + |name|] == name
              && (t.syms[i].stName + |name| == |t.strTab| || t.strTab[t.syms[i].stName + |name|] == '\0')
  {
    if i < |t.syms| && t.Named(i) {
      CStringExact(t.strTab, t.syms[i].stName, name);
    }
  }

  /** The answer of a search through the table one symbol after the other. */
  function LinearSearch(t: Symbols, from: nat, name: string): (r: Option<nat>)
    requires from <= |t.syms|
    ensures r.None? <==> forall i | from <= i < |t.syms| :: !t.Matches(i, name)
    ensures r.Some? ==> from <= r.value && t.Matches(r.value, name) && forall i | from <= i < r.value ::
              !t.Matches(i, name)
    decreases |t.syms| - from
  {
    if from == |t.syms| then None
    else if t.Matches(from, name) then Some(from)
    else LinearSearch(t, from + 1, name)
  }

  // ---- the GNU form

  function Pow2(n: nat): (p: nat)
    ensures p > 0
  {
    if n == 0 then 1 else 2 * Pow2(n - 1)
  }

  /** These are the powers of two, division by which is a shift to the right. */
  lemma {:induction false} Pow2Adds(m: nat, n: nat)
    ensures Pow2(1) == 2 && Pow2(m + n) == Pow2(m) * Pow2(n)
    decreases n
  {
    if n > 0 {
      Pow2Adds(m, n - 1);
      assert Pow2(m) * (2 * Pow2(n - 1)) == 2 * (Pow2(m) * Pow2(n - 1));
    }
  }

  /** `x | 1` */
  function WithLowBit(x: Word): Word {
    if x % 2 == 0 then x + 1 else x
  }

  /** A filter word is given by the positions of its one bits. */
  datatype GnuHash = GnuHash(symndx: nat, shift2: nat, filter: seq<set<nat>>, buckets: seq<Word>, values: seq<Word>) {
    /** The reads the lookup makes are inside the section. */
    ghost predicate Shaped(t: Symbols) {
      && |filter| > 0 && |buckets| > 0 && shift2 < 32
      && symndx <= |t.syms| < 0x1_0000_0000 && |values| == |t.syms| - symndx
    }

    function FilterWord(h: Word, classBits: nat): (w: nat)
      requires |filter| > 0 && classBits > 0
      ensures w < |filter|
    {
      (h / classBits) % |filter|
    }

    function Mask(h: Word, classBits: nat): set<nat>
      requires classBits > 0
    {
      {h % classBits, (h / Pow2(shift2)) % classBits}
    }

    function BucketOf(h: Word): (b: nat)
      requires |buckets| > 0
      ensures b < |buckets|
    {
      h % |buckets|
    }

    function SymBucket(hash: string -> Word, t: Symbols, i: nat): nat
      requires |buckets| > 0 && i < |t.syms| && t.Named(i)
    {
      BucketOf(hash(t.NameOf(i)))
    }

    /** Symbols `symndx` onwards are grouped by bucket, and each bucket points at
        the first of its symbols. */
    ghost predicate Grouped(hash: string -> Word, t: Symbols) {
      && Shaped(t)
      && (forall i | symndx <= i < |t.syms| :: t.Named(i))
      && (forall i, j | symndx <= i < j < |t.syms| :: SymBucket(hash, t, i) <= SymBucket(hash, t, j))
      && (forall i {:trigger StartsBucket(hash, t, i)} | symndx <= i < |t.syms| && StartsBucket(hash, t, i) ::
            SymBucket(hash, t, i) < |buckets| && buckets[SymBucket(hash, t, i)] == i)
    }

    /** Also, the filter has the bits of every name, and a value is the hash of its
        symbol with the low bit telling whether the bucket ends there. */
    ghost predicate WellFormed(hash: string -> Word, classBits: nat, t: Symbols)
      requires classBits > 0
    {
      && Grouped(hash, t)
      && (forall i | symndx <= i < |t.syms| ::
          Mask(hash(t.NameOf(i)), classBits) <= filter[FilterWord(hash(t.NameOf(i)), classBits)])
      && (forall i | symndx <= i < |t.syms| :: Chained(hash, t, i))
    }

    ghost predicate Chained(hash: string -> Word, t: Symbols, i: nat)
      requires Shaped(t) && symndx <= i < |t.syms| && t.Named(i)
    {
      && values[i - symndx] / 2 == hash(t.NameOf(i)) / 2
      && (values[i - symndx] % 2 == 1 <==> EndsBucket(hash, t, i))
    }

    ghost predicate StartsBucket(hash: string -> Word, t: Symbols, i: nat)
      requires |buckets| > 0 && i < |t.syms| && t.Named(i)
    {
      i > symndx && t.Named(i - 1) ==> SymBucket(hash, t, i - 1) != SymBucket(hash, t, i)
    }

    ghost predicate EndsBucket(hash: string -> Word, t: Symbols, i: nat)
      requires |buckets| > 0 && i < |t.syms| && t.Named(i)
    {
      i + 1 < |t.syms| && t.Named(i + 1) ==> SymBucket(hash, t, i + 1) != SymBucket(hash, t, i)
    }
  }

  /** The bucket of a symbol starts at or before it. */
  lemma {:induction false} BucketStartsBefore(g: GnuHash, hash: string -> Word, t: Symbols, j: nat)
    requires g.Grouped(hash, t) && g.symndx <= j < |t.syms|
    ensures g.SymBucket(hash, t, j) < |g.buckets|
    ensures var s := g.buckets[g.SymBucket(hash, t, j)];
            g.symndx <= s <= j && g.SymBucket(hash, t, s) == g.SymBucket(hash, t, j)
    decreases j
  {
    hide GnuHash.SymBucket;
    if !g.StartsBucket(hash, t, j) {
      BucketStartsBefore(g, hash, t, j - 1);
    }
  }

  /** A symbol with the stop bit inside the walk for a name is the last one that
      could carry it. */
  lemma StopBitIsLast(g: GnuHash, hash: string -> Word, t: Symbols, name: string, i: nat, j: nat)
    requires g.Grouped(hash, t) && g.symndx <= i < |t.syms| && g.EndsBucket(hash, t, i)
    requires g.buckets[g.BucketOf(hash(name))] <= i < j
    ensures !t.Matches(j, name)
  {
    if t.Matches(j, name) {
      BucketStartsBefore(g, hash, t, j);
      assert false;
    }
  }

  /** The filter lets every name through that the table has. */
  lemma BloomAccepts(g: GnuHash, hash: string -> Word, classBits: nat, t: Symbols, name: string, i: nat)
    requires classBits > 0 && g.WellFormed(hash, classBits, t) && g.symndx <= i && t.Matches(i, name)
    ensures g.Mask(hash(name), classBits) <= g.filter[g.FilterWord(hash(name), classBits)]
  {
  }

  /** The walk starts no later than the first symbol with the name. */
  lemma WalkStartsEarly(g: GnuHash, hash: string -> Word, classBits: nat, t: Symbols, name: string)
    requires classBits > 0 && g.WellFormed(hash, classBits, t)
    ensures var s := g.buckets[g.BucketOf(hash(name))];
            forall i | g.symndx <= i < |t.syms| && t.Matches(i, name) :: g.symndx <= s <= i
  {
    forall i | g.symndx <= i < |t.syms| && t.Matches(i, name)
      ensures g.symndx <= g.buckets[g.BucketOf(hash(name))] <= i
    {
      BucketStartsBefore(g, hash, t, i);
    }
  }

  /** What is compared are all bits but the lowest. */
  lemma LowBitIgnored(x: Word, y: Word)
    ensures WithLowBit(x) == WithLowBit(y) <==> x / 2 == y / 2
    ensures WithLowBit(x) % 2 == 1 && WithLowBit(x) / 2 == x / 2
  {
  }

  /** Symbols whose hash differs apart from the stop bit have another name. */
  lemma OtherHash(g: GnuHash, hash: string -> Word, classBits: nat, t: Symbols, name: string, i: nat)
    requires classBits > 0 && g.WellFormed(hash, classBits, t) && g.symndx <= i < |t.syms|
    ensures t.Matches(i, name) ==> WithLowBit(hash(name)) == WithLowBit(g.values[i - g.symndx])
    ensures g.Grouped(hash, t) && t.Named(i) && (g.values[i - g.symndx] % 2 == 1 <==> g.EndsBucket(hash, t, i))
  {
    assert g.Chained(hash, t, i);
  }

  /** The walk for the name ends at a symbol: its stored hash is that of the name but for
      the lowest bit, and it has no readable name, or the name, or the stop bit. */
  ghost predicate Stops(g: GnuHash, t: Symbols, name: string, h: Word, i: nat)
    requires g.Shaped(t) && g.symndx <= i < |t.syms|
  {
    var value := g.values[i - g.symndx];
    value / 2 == h / 2 && (!t.Named(i) || t.Matches(i, name) || value % 2 == 1)
  }

  ghost predicate NoStop(g: GnuHash, t: Symbols, name: string, h: Word, from: nat, end: nat)
    requires g.Shaped(t) && g.symndx <= from && end <= |t.syms|
  {
    forall i | from <= i < end :: !Stops(g, t, name, h, i)
  }

  /** What the lookup makes of any table, well-formed or not. */
  ghost predicate GnuAnswer(g: GnuHash, t: Symbols, classBits: nat, name: string, h: Word,
                            r: Result<Option<nat>, Error>)
    requires g.Shaped(t) && classBits > 0
  {
    var bits := g.filter[(h / classBits) % |g.filter|];
    var start := g.buckets[h % |g.buckets|];
    if h % classBits !in bits || (h / Pow2(g.shift2)) % classBits !in bits || start < g.symndx then r == Ok(None)
    else
      && (NoStop(g, t, name, h, start, |t.syms|) ==> r == Ok(None))
      && (forall i | start <= i < |t.syms| && Stops(g, t, name, h, i) && NoStop(g, t, name, h, start, i) ::
            r == if !t.Named(i) then Err(BadNameOffset) else if t.Matches(i, name) then Ok(Some(i)) else Ok(None))
  }

  lemma StopsBefore(g: GnuHash, t: Symbols, name: string, h: Word, from: nat, i: nat, j: nat)
    requires g.Shaped(t) && g.symndx <= from <= i < |t.syms| && j <= |t.syms|
    requires Stops(g, t, name, h, i) && NoStop(g, t, name, h, from, j)
    ensures j <= i
  {
  }

  /** The walk stopped at `i`. */
  lemma StoppedAt(g: GnuHash, t: Symbols, classBits: nat, name: string, h: Word, i: nat,
                  r: Result<Option<nat>, Error>)
    requires g.Shaped(t) && classBits > 0 && g.symndx <= g.buckets[h % |g.buckets|] <= i < |t.syms|
    requires g.Mask(h, classBits) <= g.filter[g.FilterWord(h, classBits)]
    requires Stops(g, t, name, h, i) && NoStop(g, t, name, h, g.buckets[h % |g.buckets|], i)
    requires r == if !t.Named(i) then Err(BadNameOffset) else if t.Matches(i, name) then Ok(Some(i)) else Ok(None)
    ensures GnuAnswer(g, t, classBits, name, h, r)
  {
    hide Stops, NoStop;
    var start := g.buckets[h % |g.buckets|];
    forall j | start <= j < |t.syms| && Stops(g, t, name, h, j) && NoStop(g, t, name, h, start, j) ensures j == i {
      StopsBefore(g, t, name, h, start, i, j);
      StopsBefore(g, t, name, h, start, j, i);
    }
    if NoStop(g, t, name, h, start, |t.syms|) {
      StopsBefore(g, t, name, h, start, i, |t.syms|);
    }
  }

  lemma NeverStopped(g: GnuHash, t: Symbols, classBits: nat, name: string, h: Word)
    requires g.Shaped(t) && classBits > 0
    requires var start := g.buckets[h % |g.buckets|];
             start < g.symndx || NoStop(g, t, name, h, start, |t.syms|)
    ensures GnuAnswer(g, t, classBits, name, h, Ok(None))
  {
    hide Stops, NoStop;
    var start := g.buckets[h % |g.buckets|];
    if start >= g.symndx {
      forall j | start <= j < |t.syms| && Stops(g, t, name, h, j) ensures false {
        StopsBefore(g, t, name, h, start, j, |t.syms|);
      }
    }
  }

  lemma FilteredOut(g: GnuHash, t: Symbols, classBits: nat, name: string, h: Word)
    requires g.Shaped(t) && classBits > 0 && !(g.Mask(h, classBits) <= g.filter[g.FilterWord(h, classBits)])
    ensures GnuAnswer(g, t, classBits, name, h, Ok(None))
  {
  }

  lemma NoStopStep(g: GnuHash, t: Symbols, name: string, h: Word, from: nat, i: nat)
    requires g.Shaped(t) && g.symndx <= from <= i < |t.syms| && !Stops(g, t, name, h, i)
    requires NoStop(g, t, name, h, from, i)
    ensures NoStop(g, t, name, h, from, i + 1)
  {
  }

  lemma {:induction false} FirstStop(g: GnuHash, t: Symbols, name: string, h: Word, from: nat, end: nat)
    returns (i: nat)
    requires g.Shaped(t) && g.symndx <= from <= end <= |t.syms| && !NoStop(g, t, name, h, from, end)
    ensures from <= i < end && Stops(g, t, name, h, i) && NoStop(g, t, name, h, from, i)
    decreases end
  {
    if NoStop(g, t, name, h, from, end - 1) {
      i := end - 1;
    } else {
      i := FirstStop(g, t, name, h, from, end - 1);
    }
  }

  method GetSymbolFromGnuHashTable(hash: string -> Word, classBits: nat, name: string, g: GnuHash, t: Symbols)
    returns (r: Result<Option<nat>, Error>)
    requires classBits == 64 || classBits == 32
    requires g.Shaped(t)
    ensures GnuAnswer(g, t, classBits, name, hash(name), r)
    ensures r.Ok? && r.value.Some? ==> g.symndx <= r.value.value && t.Matches(r.value.value, name)
    ensures g.WellFormed(hash, classBits, t) ==> r == Ok(LinearSearch(t, g.symndx, name))
  {
    hide GnuHash.WellFormed, GnuHash.FilterWord, GnuHash.Mask, GnuAnswer, NoStop;
    var nameHash := hash(name);
    if g.WellFormed(hash, classBits, t) {
      AnswersAreSearches(g, hash, classBits, t, name);
    }
    if !(g.Mask(nameHash, classBits) <= g.filter[g.FilterWord(nameHash, classBits)]) {
      FilteredOut(g, t, classBits, name, nameHash);
      return Ok(None);
    }
    ghost var start := g.buckets[nameHash % |g.buckets|];
    var i: nat := g.buckets[g.BucketOf(nameHash)];
    if g.symndx <= start < |t.syms| {
      NothingYet(g, t, name, nameHash, start);
    }
    while i >= g.symndx && i < |t.syms|
      invariant i == start || start < i <= |t.syms|
      invariant g.symndx <= start < |t.syms| ==> NoStop(g, t, name, nameHash, start, i)
      invariant i != start ==> g.symndx <= start < |t.syms|
      decreases |t.syms| - i
    {
      var chainHash := g.values[i - g.symndx];
      LowBitIgnored(nameHash, chainHash);
      if WithLowBit(nameHash) != WithLowBit(chainHash) {
        NoStopStep(g, t, name, nameHash, start, i);
        i := (i + 1) % 0x1_0000_0000;
        continue;
      }
      if !t.Named(i) {
        StoppedAt(g, t, classBits, name, nameHash, i, Err(BadNameOffset));
        return Err(BadNameOffset);
      }
      if t.NameOf(i) == name {
        StoppedAt(g, t, classBits, name, nameHash, i, Ok(Some(i)));
        return Ok(Some(i));
      }
      if chainHash % 2 == 1 {
        StoppedAt(g, t, classBits, name, nameHash, i, Ok(None));
        return Ok(None);
      }
      NoStopStep(g, t, name, nameHash, start, i);
      i := (i + 1) % 0x1_0000_0000;
    }
    if start >= |t.syms| && start >= g.symndx {
      NothingAfter(g, t, name, nameHash, start);
    }
    NeverStopped(g, t, classBits, name, nameHash);
    return Ok(None);
  }

  lemma NothingYet(g: GnuHash, t: Symbols, name: string, h: Word, from: nat)
    requires g.Shaped(t) && g.symndx <= from <= |t.syms|
    ensures NoStop(g, t, name, h, from, from)
  {
  }

  lemma NothingAfter(g: GnuHash, t: Symbols, name: string, h: Word, from: nat)
    requires g.Shaped(t) && g.symndx <= from && |t.syms| <= from
    ensures NoStop(g, t, name, h, from, |t.syms|)
  {
  }

  lemma NamedFrom(g: GnuHash, hash: string -> Word, classBits: nat, t: Symbols, i: nat)
    requires classBits > 0 && g.WellFormed(hash, classBits, t) && g.symndx <= i < |t.syms|
    ensures g.Shaped(t) && t.Named(i)
  {
  }

  /** The filter lets a name that is there pass, and the walk stops at it. */
  lemma MatchStops(g: GnuHash, hash: string -> Word, classBits: nat, t: Symbols, name: string, j: nat)
    requires classBits > 0 && g.WellFormed(hash, classBits, t) && g.symndx <= j < |t.syms| && t.Matches(j, name)
    ensures var h := hash(name);
            && g.symndx <= g.buckets[h % |g.buckets|] <= j && Stops(g, t, name, h, j)
            && h % classBits in g.filter[(h / classBits) % |g.filter|]
            && (h / Pow2(g.shift2)) % classBits in g.filter[(h / classBits) % |g.filter|]
  {
    BloomAccepts(g, hash, classBits, t, name, j);
    WalkStartsEarly(g, hash, classBits, t, name);
    OtherHash(g, hash, classBits, t, name, j);
    LowBitIgnored(hash(name), g.values[j - g.symndx]);
  }

  /** If the name is there, the walk does not stop before it. */
  lemma StopIsMatch(g: GnuHash, hash: string -> Word, classBits: nat, t: Symbols, name: string, i: nat, j: nat)
    requires classBits > 0 && g.WellFormed(hash, classBits, t) && g.Shaped(t)
    requires g.symndx <= g.buckets[g.BucketOf(hash(name))] <= i < j < |t.syms|
    requires Stops(g, t, name, hash(name), i) && t.Matches(j, name)
    ensures t.Matches(i, name)
  {
    hide GnuHash.WellFormed, GnuHash.Grouped, GnuHash.EndsBucket, GnuHash.BucketOf;
    NamedFrom(g, hash, classBits, t, i);
    OtherHash(g, hash, classBits, t, name, i);
    if !t.Matches(i, name) {
      StopBitIsLast(g, hash, t, name, i, j);
    }
  }

  lemma FirstMatch(t: Symbols, from: nat, name: string, i: nat)
    requires from <= i < |t.syms| && t.Matches(i, name) && forall k | from <= k < i :: !t.Matches(k, name)
    ensures LinearSearch(t, from, name) == Some(i)
  {
    var r := LinearSearch(t, from, name);
    assert r.Some?;
    assert !(r.value < i) && !(i < r.value);
  }

  lemma NotPassed(g: GnuHash, hash: string -> Word, classBits: nat, t: Symbols, name: string, i: nat, k: nat)
    requires classBits > 0 && g.WellFormed(hash, classBits, t) && g.Shaped(t)
    requires g.symndx <= g.buckets[hash(name) % |g.buckets|] && g.symndx <= k < |t.syms| && i <= |t.syms|
    requires t.Matches(k, name) && NoStop(g, t, name, hash(name), g.buckets[hash(name) % |g.buckets|], i)
    ensures i <= k
  {
    hide GnuHash.WellFormed, Stops, NoStop, Symbols.Matches;
    MatchStops(g, hash, classBits, t, name, k);
    StopsBefore(g, t, name, hash(name), g.buckets[hash(name) % |g.buckets|], k, i);
  }

  lemma PresentIsFound(g: GnuHash, hash: string -> Word, classBits: nat, t: Symbols, name: string,
                       r: Result<Option<nat>, Error>, j: nat)
    requires classBits > 0 && g.WellFormed(hash, classBits, t) && g.Shaped(t)
    requires GnuAnswer(g, t, classBits, name, hash(name), r) && g.symndx <= j < |t.syms| && t.Matches(j, name)
    ensures r == Ok(LinearSearch(t, g.symndx, name))
  {
    hide GnuHash.WellFormed, Stops, NoStop, Symbols.Matches, LinearSearch;
    var h := hash(name);
    var start: nat := g.buckets[h % |g.buckets|];
    MatchStops(g, hash, classBits, t, name, j);
    assert !NoStop(g, t, name, h, start, |t.syms|) by {
      if NoStop(g, t, name, h, start, |t.syms|) {
        StopsBefore(g, t, name, h, start, j, |t.syms|);
      }
    }
    var i := FirstStop(g, t, name, h, start, |t.syms|);
    StopsBefore(g, t, name, h, start, j, i);
    if i < j {
      StopIsMatch(g, hash, classBits, t, name, i, j);
    }
    NamedFrom(g, hash, classBits, t, i);
    forall k | g.symndx <= k < i ensures !t.Matches(k, name) {
      if t.Matches(k, name) {
        NotPassed(g, hash, classBits, t, name, i, k);
      }
    }
    FirstMatch(t, g.symndx, name, i);
  }

  lemma AbsentIsNone(g: GnuHash, hash: string -> Word, classBits: nat, t: Symbols, name: string,
                     r: Result<Option<nat>, Error>)
    requires classBits > 0 && g.WellFormed(hash, classBits, t) && g.Shaped(t)
    requires GnuAnswer(g, t, classBits, name, hash(name), r)
    requires forall j | g.symndx <= j < |t.syms| :: !t.Matches(j, name)
    ensures r == Ok(None)
  {
    hide GnuHash.WellFormed, Stops, NoStop, Symbols.Matches;
    var h := hash(name);
    var start: nat := g.buckets[h % |g.buckets|];
    if g.symndx <= start {
      if start >= |t.syms| {
        NothingAfter(g, t, name, h, start);
      } else if !NoStop(g, t, name, h, start, |t.syms|) {
        var i := FirstStop(g, t, name, h, start, |t.syms|);
        NamedFrom(g, hash, classBits, t, i);
      }
    }
  }

  /** On a well-formed table the answer is that of the linear search. */
  lemma AnswerIsSearch(g: GnuHash, hash: string -> Word, classBits: nat, t: Symbols, name: string,
                       r: Result<Option<nat>, Error>)
    requires classBits > 0 && g.WellFormed(hash, classBits, t) && g.Shaped(t)
    requires GnuAnswer(g, t, classBits, name, hash(name), r)
    ensures r == Ok(LinearSearch(t, g.symndx, name))
  {
    hide GnuHash.WellFormed, GnuAnswer, Symbols.Matches;
    if j :| g.symndx <= j < |t.syms| && t.Matches(j, name) {
      PresentIsFound(g, hash, classBits, t, name, r, j);
    } else {
      AbsentIsNone(g, hash, classBits, t, name, r);
    }
  }

  lemma AnswersAreSearches(g: GnuHash, hash: string -> Word, classBits: nat, t: Symbols, name: string)
    requires classBits > 0 && g.WellFormed(hash, classBits, t) && g.Shaped(t)
    ensures forall r | GnuAnswer(g, t, classBits, name, hash(name), r) :: r == Ok(LinearSearch(t, g.symndx, name))
  {
    hide GnuHash.WellFormed, GnuAnswer;
    forall r | GnuAnswer(g, t, classBits, name, hash(name), r) ensures r == Ok(LinearSearch(t, g.symndx, name)) {
      AnswerIsSearch(g, hash, classBits, t, name, r);
    }
  }

  // ---- building a GNU table, so that well-formed ones exist for every symbol order

  ghost predicate SortedByBucket(hash: string -> Word, t: Symbols, symndx: nat, nbuckets: nat) {
    && nbuckets > 0 && symndx <= |t.syms| < 0x1_0000_0000
    && (forall i | symndx <= i < |t.syms| :: t.Named(i))
    && (forall i, j | symndx <= i < j < |t.syms| ::
        HashBucket(hash, t, nbuckets, i) <= HashBucket(hash, t, nbuckets, j))
  }

  ghost function HashBucket(hash: string -> Word, t: Symbols, nbuckets: nat, i: nat): nat
    requires nbuckets > 0 && i < |t.syms| && t.Named(i)
  {
    hash(t.NameOf(i)) % nbuckets
  }

  /** The first symbol of a bucket, or 0 when it has none. */
  ghost function FirstOf(hash: string -> Word, t: Symbols, symndx: nat, nbuckets: nat, from: nat, b: nat): (i: Word)
    requires SortedByBucket(hash, t, symndx, nbuckets) && symndx <= from <= |t.syms|
    ensures forall j | from <= j < |t.syms| && HashBucket(hash, t, nbuckets, j) == b ::
              from <= i <= j && HashBucket(hash, t, nbuckets, i) == b
    decreases |t.syms| - from
  {
    if from == |t.syms| then 0
    else if HashBucket(hash, t, nbuckets, from) == b then from
    else FirstOf(hash, t, symndx, nbuckets, from + 1, b)
  }

  ghost function ValueOf(hash: string -> Word, t: Symbols, symndx: nat, nbuckets: nat, i: nat): (v: Word)
    requires SortedByBucket(hash, t, symndx, nbuckets) && symndx <= i < |t.syms|
  {
    var last := i + 1 < |t.syms| ==> HashBucket(hash, t, nbuckets, i + 1) != HashBucket(hash, t, nbuckets, i);
    hash(t.NameOf(i)) / 2 * 2 + if last then 1 else 0
  }

  ghost function FilterBits(hash: string -> Word, classBits: nat, t: Symbols, symndx: nat, shift2: nat, maskwords: nat,
                            w: nat): set<nat>
    requires classBits > 0 && maskwords > 0
  {
    set i: nat, p | symndx <= i < |t.syms| && p in BitsIn(hash, classBits, t, shift2, maskwords, w, i) :: p
  }

  /** The bits of symbol `i` in filter word `w`. */
  ghost function BitsIn(hash: string -> Word, classBits: nat, t: Symbols, shift2: nat, maskwords: nat, w: nat,
                        i: nat): set<nat>
    requires classBits > 0 && maskwords > 0 && i < |t.syms|
  {
    if t.Named(i) && (hash(t.NameOf(i)) / classBits) % maskwords == w then
      {hash(t.NameOf(i)) % classBits, (hash(t.NameOf(i)) / Pow2(shift2)) % classBits}
    else {}
  }

  ghost function BuildGnu(hash: string -> Word, classBits: nat, t: Symbols, symndx: nat, nbuckets: nat, maskwords: nat,
                          shift2: nat): GnuHash
    requires SortedByBucket(hash, t, symndx, nbuckets) && classBits > 0 && maskwords > 0
  {
    GnuHash(symndx, shift2,
            seq(maskwords, w requires 0 <= w => FilterBits(hash, classBits, t, symndx, shift2, maskwords, w)),
            seq<Word>(nbuckets, b requires 0 <= b => FirstOf(hash, t, symndx, nbuckets, symndx, b)),
            seq<Word>(|t.syms| - symndx,
                      k requires 0 <= k < |t.syms| - symndx => ValueOf(hash, t, symndx, nbuckets, symndx + k)))
  }

  lemma BuiltIsGrouped(hash: string -> Word, classBits: nat, t: Symbols, symndx: nat, nbuckets: nat, maskwords: nat,
                       shift2: nat)
    requires SortedByBucket(hash, t, symndx, nbuckets) && classBits > 0 && maskwords > 0 && shift2 < 32
    ensures BuildGnu(hash, classBits, t, symndx, nbuckets, maskwords, shift2).Grouped(hash, t)
  {
    var g := BuildGnu(hash, classBits, t, symndx, nbuckets, maskwords, shift2);
    forall i | symndx <= i < |t.syms| ensures g.SymBucket(hash, t, i) == HashBucket(hash, t, nbuckets, i) < nbuckets {
    }
    hide GnuHash.SymBucket, HashBucket;
    forall i | symndx <= i < |t.syms| && g.StartsBucket(hash, t, i) ensures g.buckets[g.SymBucket(hash, t, i)] == i {
      var s := FirstOf(hash, t, symndx, nbuckets, symndx, g.SymBucket(hash, t, i));
      assert HashBucket(hash, t, nbuckets, s) == HashBucket(hash, t, nbuckets, i);
    }
  }

  lemma BuiltIsWellFormed(hash: string -> Word, classBits: nat, t: Symbols, symndx: nat, nbuckets: nat, maskwords: nat,
                          shift2: nat)
    requires SortedByBucket(hash, t, symndx, nbuckets) && classBits > 0 && maskwords > 0 && shift2 < 32
    ensures BuildGnu(hash, classBits, t, symndx, nbuckets, maskwords, shift2).WellFormed(hash, classBits, t)
  {
    var g := BuildGnu(hash, classBits, t, symndx, nbuckets, maskwords, shift2);
    BuiltIsGrouped(hash, classBits, t, symndx, nbuckets, maskwords, shift2);
    forall i | symndx <= i < |t.syms| ensures g.Chained(hash, t, i) {
      assert g.values[i - symndx] == ValueOf(hash, t, symndx, nbuckets, i);
    }
    hide GnuHash.Chained, GnuHash.Grouped;
    forall i | symndx <= i < |t.syms|
      ensures g.Mask(hash(t.NameOf(i)), classBits) <= g.filter[g.FilterWord(hash(t.NameOf(i)), classBits)]
    {
      var w := g.FilterWord(hash(t.NameOf(i)), classBits);
      assert g.filter[w] == FilterBits(hash, classBits, t, symndx, shift2, maskwords, w);
      assert BitsIn(hash, classBits, t, shift2, maskwords, w, i) <= g.filter[w];
    }
  }

  // ---- the System V form

  datatype SysVHash = SysVHash(buckets: seq<Word>, chains: seq<Word>) {
    ghost predicate Shaped(t: Symbols) {
      |buckets| > 0 && |t.syms| <= |chains|
    }

    /** The chain followed from `i` for `name` comes to an end in `n` links: the
        end mark, a bad index, a bad name offset, or the name itself. */
    ghost predicate Halts(t: Symbols, name: string, i: nat, n: nat)
      requires Shaped(t)
      decreases n
    {
      || i == 0 || i >= |t.syms| || !t.Named(i) || t.Matches(i, name)
      || (n > 0 && Halts(t, name, chains[i], n - 1))
    }

    ghost predicate Ends(t: Symbols, name: string, i: nat)
      requires Shaped(t)
    {
      exists n: nat :: Halts(t, name, i, n)
    }

    /** Where it comes to an end. */
    ghost function Found(t: Symbols, name: string, i: nat, n: nat): Result<Option<nat>, Error>
      requires Shaped(t) && Halts(t, name, i, n)
      decreases n
    {
      if i == 0 then Ok(None)
      else if i >= |t.syms| then Err(BadSymbolIndex)
      else if !t.Named(i) then Err(BadNameOffset)
      else if t.Matches(i, name) then Ok(Some(i))
      else Found(t, name, chains[i], n - 1)
    }

    /** The walk for `name` follows the link of symbol `i`. */
    ghost predicate GoesOn(t: Symbols, name: string, i: nat) {
      0 < i < |t.syms| && t.Named(i) && !t.Matches(i, name)
    }

    /** Wherever the walk goes on, it stays among the ranked symbols and goes down. */
    ghost predicate Descends(t: Symbols, name: string, rank: map<nat, nat>)
      requires Shaped(t)
    {
      forall i | i in rank && GoesOn(t, name, i) :: chains[i] in rank && rank[chains[i]] < rank[i]
    }

    /** The walk for `name` is along a way that goes down. */
    ghost predicate WayDown(t: Symbols, name: string, start: nat)
      requires Shaped(t)
    {
      exists rank: map<nat, nat> :: start in rank && Descends(t, name, rank)
    }

    /** Among all symbols the walk goes down. */
    ghost predicate AllDescend(t: Symbols, name: string, rank: seq<nat>)
      requires Shaped(t)
    {
      && |rank| == |t.syms|
      && forall i | 0 < i < |t.syms| && GoesOn(t, name, i) && chains[i] < |t.syms| :: rank[chains[i]] < rank[i]
    }

    /** How many links the walk follows. */
    ghost function Steps(t: Symbols, name: string, i: nat, n: nat): nat
      requires Shaped(t) && Halts(t, name, i, n)
      decreases n
    {
      if GoesOn(t, name, i) then 1 + Steps(t, name, chains[i], n - 1) else 0
    }

    ghost predicate Linked(from: nat, i: nat, n: nat)
      decreases n
    {
      from == i || (n > 0 && 0 < from < |chains| && Linked(chains[from], i, n - 1))
    }

    /** Links lead to smaller ranks, so no chain runs in a circle. */
    ghost predicate Acyclic(t: Symbols, rank: seq<nat>)
      requires Shaped(t)
    {
      && |rank| == |t.syms|
      && forall i | 0 < i < |t.syms| && 0 < chains[i] < |t.syms| :: rank[chains[i]] < rank[i]
    }

    /** Every symbol but the null one is on the chain of its bucket, and every link
        is to a symbol or the end. */
    ghost predicate WellFormed(hash: string -> Word, t: Symbols) {
      && Shaped(t) && |t.syms| > 0
      && (forall i | 0 < i < |t.syms| :: t.Named(i) && chains[i] < |t.syms|)
      && (forall b | 0 <= b < |buckets| :: buckets[b] < |t.syms|)
      && (exists rank :: Acyclic(t, rank))
      && (forall i | 0 < i < |t.syms| :: OnChain(hash, t, i))
    }

    ghost predicate OnChain(hash: string -> Word, t: Symbols, i: nat)
      requires |buckets| > 0 && i < |t.syms| && t.Named(i)
    {
      exists n: nat :: Linked(buckets[hash(t.NameOf(i)) % |buckets|], i, n)
    }
  }

  /** Down a way of ranks the walk ends. */
  lemma {:induction false} DescentHalts(h: SysVHash, t: Symbols, name: string, rank: map<nat, nat>, i: nat)
    requires h.Shaped(t) && i in rank && h.Descends(t, name, rank)
    ensures h.Ends(t, name, i)
    decreases rank[i]
  {
    if h.GoesOn(t, name, i) {
      DescentHalts(h, t, name, rank, h.chains[i]);
      var n: nat :| h.Halts(t, name, h.chains[i], n);
      assert h.Halts(t, name, i, n + 1);
    } else {
      assert h.Halts(t, name, i, 0);
    }
  }

  /** A walk that ends goes down a way of ranks. */
  lemma {:induction false} HaltDescends(h: SysVHash, t: Symbols, name: string, i: nat, n: nat)
    returns (rank: map<nat, nat>)
    requires h.Shaped(t) && h.Halts(t, name, i, n)
    ensures i in rank && h.Descends(t, name, rank)
    decreases n
  {
    if h.GoesOn(t, name, i) {
      rank := HaltDescends(h, t, name, h.chains[i], n - 1);
      if i !in rank {
        rank := rank[i := rank[h.chains[i]] + 1];
      }
    } else {
      rank := map[i := 0];
    }
  }

  /** A walk ends exactly when its symbols can be ranked so that every link followed
      leads down. */
  lemma WalkEndsIff(h: SysVHash, t: Symbols, name: string, start: nat)
    requires h.Shaped(t)
    ensures h.Ends(t, name, start) <==> h.WayDown(t, name, start)
  {
    if n: nat :| h.Halts(t, name, start, n) {
      var rank := HaltDescends(h, t, name, start, n);
    }
    if rank: map<nat, nat> :| start in rank && h.Descends(t, name, rank) {
      DescentHalts(h, t, name, rank, start);
    }
  }

  lemma {:induction false} StepsSame(h: SysVHash, t: Symbols, name: string, i: nat, m: nat, n: nat)
    requires h.Shaped(t) && h.Halts(t, name, i, m) && h.Halts(t, name, i, n)
    ensures h.Steps(t, name, i, m) == h.Steps(t, name, i, n)
    decreases m
  {
    if h.GoesOn(t, name, i) {
      StepsSame(h, t, name, h.chains[i], m - 1, n - 1);
    }
  }

  /** The number of links from each symbol, where the walks end. */
  ghost function StepsFrom(h: SysVHash, t: Symbols, name: string, i: nat): (k: nat)
    requires h.Shaped(t) && h.Ends(t, name, i)
    ensures forall n: nat | h.Halts(t, name, i, n) :: k == h.Steps(t, name, i, n)
  {
    var m: nat :| h.Halts(t, name, i, m);
    assert forall n: nat | h.Halts(t, name, i, n) :: h.Steps(t, name, i, m) == h.Steps(t, name, i, n) by {
      forall n: nat | h.Halts(t, name, i, n) ensures h.Steps(t, name, i, m) == h.Steps(t, name, i, n) {
        StepsSame(h, t, name, i, m, n);
      }
    }
    h.Steps(t, name, i, m)
  }

  /** The walk ends from wherever it begins exactly when no links it follows run in a
      circle, all symbols having ranks that go down. */
  lemma AllWalksEndIff(h: SysVHash, t: Symbols, name: string)
    requires h.Shaped(t)
    ensures (forall i: nat :: h.Ends(t, name, i)) <==> exists rank :: h.AllDescend(t, name, rank)
  {
    if rank :| h.AllDescend(t, name, rank) {
      forall i: nat ensures h.Ends(t, name, i) {
        RankedHalts(h, t, name, rank, i);
      }
    }
    if forall i: nat :: h.Ends(t, name, i) {
      var rank := seq(|t.syms|, i requires 0 <= i < |t.syms| => StepsFrom(h, t, name, i));
      forall i | 0 < i < |t.syms| && h.GoesOn(t, name, i) && h.chains[i] < |t.syms|
        ensures rank[h.chains[i]] < rank[i] {
        assert h.Ends(t, name, i);
        var n: nat :| h.Halts(t, name, i, n);
        assert h.Steps(t, name, i, n) == 1 + h.Steps(t, name, h.chains[i], n - 1);
      }
      assert h.AllDescend(t, name, rank);
    }
  }

  lemma {:induction false} RankedHalts(h: SysVHash, t: Symbols, name: string, rank: seq<nat>, i: nat)
    requires h.Shaped(t) && h.AllDescend(t, name, rank)
    ensures h.Ends(t, name, i)
    decreases if i < |t.syms| then rank[i] else 0
  {
    if !h.GoesOn(t, name, i) {
      assert h.Halts(t, name, i, 0);
    } else {
      if h.chains[i] < |t.syms| {
        RankedHalts(h, t, name, rank, h.chains[i]);
      } else {
        assert h.Halts(t, name, h.chains[i], 0);
      }
      var n: nat :| h.Halts(t, name, h.chains[i], n);
      assert h.Halts(t, name, i, n + 1);
    }
  }

  /** On a table without circles every lookup ends, whatever the name. */
  lemma AcyclicHalts(h: SysVHash, t: Symbols, name: string, rank: seq<nat>, i: nat)
    requires h.Shaped(t) && h.Acyclic(t, rank)
    ensures h.Ends(t, name, i)
  {
    var above := seq(|rank|, k requires 0 <= k < |rank| => if k == 0 then 0 else rank[k] + 1);
    assert h.AllDescend(t, name, above);
    RankedHalts(h, t, name, above, i);
  }

  lemma {:induction false} CStringFits(s: string, at: nat)
    requires at <= |s|
    ensures |CString(s, at)| <= |s| - at
    decreases |s| - at
  {
    if at < |s| && s[at] != '\0' {
      CStringFits(s, at + 1);
    }
  }

  /** No link runs in a circle exactly when every lookup of every name ends. */
  lemma AcyclicIff(h: SysVHash, t: Symbols)
    requires h.Shaped(t) && forall i | 0 < i < |t.syms| :: t.Named(i)
    ensures (exists rank :: h.Acyclic(t, rank)) <==> forall name, i: nat :: h.Ends(t, name, i)
  {
    if rank :| h.Acyclic(t, rank) {
      forall name, i: nat ensures h.Ends(t, name, i) {
        AcyclicHalts(h, t, name, rank, i);
      }
    }
    if forall name, i: nat :: h.Ends(t, name, i) {
      var absent := t.strTab + "x";
      forall i | 0 < i < |t.syms| ensures h.GoesOn(t, absent, i) {
        assert t.Named(i);
        CStringFits(t.strTab, t.syms[i].stName);
      }
      AllWalksEndIff(h, t, absent);
      var rank :| h.AllDescend(t, absent, rank);
      assert h.Acyclic(t, rank);
    }
  }

  /** A symbol linked to itself: a lookup of a name the table does not have, in the
      bucket of that symbol, never ends. */
  lemma {:induction false} CircleNeverEnds(n: nat)
    ensures var h, t := SysVHash([1], [0, 1]), Symbols([Sym(0), Sym(0)], "a");
            h.Shaped(t) && !t.Matches(1, "b") && !h.Halts(t, "b", 1, n)
    decreases n
  {
    var t := Symbols([Sym(0), Sym(0)], "a");
    assert t.NameOf(1)[0] == 'a';
    if n > 0 {
      CircleNeverEnds(n - 1);
    }
  }

  lemma {:induction false} FoundUnique(h: SysVHash, t: Symbols, name: string, i: nat, m: nat, n: nat)
    requires h.Shaped(t) && h.Halts(t, name, i, m) && h.Halts(t, name, i, n)
    ensures h.Found(t, name, i, m) == h.Found(t, name, i, n)
    decreases m
  {
    if i != 0 && i < |t.syms| && t.Named(i) && !t.Matches(i, name) {
      FoundUnique(h, t, name, h.chains[i], m - 1, n - 1);
    }
  }

  method GetSymbolFromSysVHashTable(hash: string -> Word, name: string, h: SysVHash, t: Symbols)
    returns (r: Result<Option<nat>, Error>)
    requires h.Shaped(t) && h.WayDown(t, name, h.buckets[hash(name) % |h.buckets|])
    ensures forall n: nat | h.Halts(t, name, h.buckets[hash(name) % |h.buckets|], n) ::
              r == h.Found(t, name, h.buckets[hash(name) % |h.buckets|], n)
  {
    ghost var start := h.buckets[hash(name) % |h.buckets|];
    WalkEndsIff(h, t, name, start);
    ghost var n: nat :| h.Halts(t, name, start, n);
    ghost var left := n;
    var i: nat := h.buckets[hash(name) % |h.buckets|];
    while i != 0
      invariant h.Halts(t, name, i, left) && h.Found(t, name, i, left) == h.Found(t, name, start, n)
      decreases left
    {
      if i >= |t.syms| {
        SameFound(h, t, name, start, n);
        return Err(BadSymbolIndex);
      }
      if !t.Named(i) {
        SameFound(h, t, name, start, n);
        return Err(BadNameOffset);
      }
      if t.NameOf(i) == name {
        SameFound(h, t, name, start, n);
        return Ok(Some(i));
      }
      i, left := h.chains[i], left - 1;
    }
    SameFound(h, t, name, start, n);
    return Ok(None);
  }

  lemma SameFound(h: SysVHash, t: Symbols, name: string, i: nat, n: nat)
    requires h.Shaped(t) && h.Halts(t, name, i, n)
    ensures forall m: nat | h.Halts(t, name, i, m) :: h.Found(t, name, i, m) == h.Found(t, name, i, n)
  {
    forall m: nat | h.Halts(t, name, i, m) ensures h.Found(t, name, i, m) == h.Found(t, name, i, n) {
      FoundUnique(h, t, name, i, m, n);
    }
  }

  /** A name on the chain is found there. */
  lemma {:induction false} LinkedIsFound(h: SysVHash, hash: string -> Word, t: Symbols, name: string, from: nat, i: nat,
                                         k: nat,
                                         n: nat)
    requires h.WellFormed(hash, t) && h.Linked(from, i, k) && 0 < i && t.Matches(i, name) && from < |t.syms|
    requires h.Halts(t, name, from, n)
    ensures var r := h.Found(t, name, from, n); r.Ok? && r.value.Some?
    decreases k
  {
    if from != i && !t.Matches(from, name) {
      LinkedIsFound(h, hash, t, name, h.chains[from], i, k - 1, n - 1);
    }
  }

  lemma {:induction false} FoundMatches(h: SysVHash, hash: string -> Word, t: Symbols, name: string, from: nat, n: nat)
    requires h.WellFormed(hash, t) && from < |t.syms| && h.Halts(t, name, from, n)
    ensures var r := h.Found(t, name, from, n);
            r.Ok? && (r.value.Some? ==> 0 < r.value.value && t.Matches(r.value.value, name))
    decreases n
  {
    if from != 0 && !t.Matches(from, name) {
      FoundMatches(h, hash, t, name, h.chains[from], n - 1);
    }
  }

  /** What a lookup in a well-formed table may answer. */
  ghost predicate Answers(t: Symbols, from: nat, name: string, r: Result<Option<nat>, Error>) {
    && r.Ok?
    && (r.value.Some? ==> from <= r.value.value && t.Matches(r.value.value, name))
    && (r.value.None? ==> forall i | from <= i < |t.syms| :: !t.Matches(i, name))
  }

  lemma SysVComplete(h: SysVHash, hash: string -> Word, t: Symbols, name: string, n: nat)
    requires h.WellFormed(hash, t) && h.Halts(t, name, h.buckets[hash(name) % |h.buckets|], n)
    ensures Answers(t, 1, name, h.Found(t, name, h.buckets[hash(name) % |h.buckets|], n))
  {
    var start := h.buckets[hash(name) % |h.buckets|];
    FoundMatches(h, hash, t, name, start, n);
    forall i | 1 <= i < |t.syms| && t.Matches(i, name)
      ensures h.Found(t, name, start, n).value.Some?
    {
      assert h.OnChain(hash, t, i);
      var k: nat :| h.Linked(start, i, k);
      LinkedIsFound(h, hash, t, name, start, i, k, n);
    }
  }

  // ---- building a System V table

  ghost predicate AllNamed(t: Symbols) {
    0 < |t.syms| < 0x1_0000_0000 && forall i | 0 < i < |t.syms| :: t.Named(i)
  }

  /** The last symbol before `i` in a bucket, or 0. */
  ghost function LastOf(hash: string -> Word, t: Symbols, nbuckets: nat, b: nat, i: nat): (j: Word)
    requires AllNamed(t) && nbuckets > 0 && i <= |t.syms|
    ensures j == 0 || j < i
    decreases i
  {
    if i <= 1 then 0
    else if HashBucket(hash, t, nbuckets, i - 1) == b then i - 1
    else LastOf(hash, t, nbuckets, b, i - 1)
  }

  /** A bucket begins with its last symbol, and links lead back. */
  ghost function BuildSysV(hash: string -> Word, t: Symbols, nbuckets: nat): SysVHash
    requires AllNamed(t) && nbuckets > 0
  {
    SysVHash(seq<Word>(nbuckets, b requires 0 <= b < nbuckets => LastOf(hash, t, nbuckets, b, |t.syms|)),
             seq<Word>(|t.syms|, i requires 0 <= i < |t.syms| =>
                                   if i == 0 then 0
                                   else LastOf(hash, t, nbuckets, HashBucket(hash, t, nbuckets, i), i)))
  }

  lemma BuiltLinks(hash: string -> Word, t: Symbols, nbuckets: nat)
    requires AllNamed(t) && nbuckets > 0
    ensures var h := BuildSysV(hash, t, nbuckets);
            && |h.chains| == |t.syms| && |h.buckets| == nbuckets
            && (forall i | 0 < i < |t.syms| ::
                  t.Named(i) && h.chains[i] == LastOf(hash, t, nbuckets, HashBucket(hash, t, nbuckets, i), i))
            && (forall b | 0 <= b < nbuckets :: h.buckets[b] == LastOf(hash, t, nbuckets, b, |t.syms|))
  {
    hide LastOf, HashBucket;
  }

  /** From the last symbol of the bucket of `i` before `n` the links lead to `i`. */
  lemma {:induction false} ChainReaches(hash: string -> Word, t: Symbols, nbuckets: nat, i: nat, n: nat)
    returns (k: nat)
    requires AllNamed(t) && nbuckets > 0 && 0 < i < n <= |t.syms|
    ensures BuildSysV(hash, t, nbuckets).Linked(LastOf(hash, t, nbuckets, HashBucket(hash, t, nbuckets, i), n), i, k)
    decreases n
  {
    hide BuildSysV, HashBucket;
    BuiltLinks(hash, t, nbuckets);
    var h, b := BuildSysV(hash, t, nbuckets), HashBucket(hash, t, nbuckets, i);
    var from := LastOf(hash, t, nbuckets, b, n);
    if n - 1 == i {
      k := 0;
    } else {
      k := ChainReaches(hash, t, nbuckets, i, n - 1);
      if HashBucket(hash, t, nbuckets, n - 1) == b {
        assert from == n - 1 && h.chains[n - 1] == LastOf(hash, t, nbuckets, b, n - 1);
        k := k + 1;
      }
    }
  }

  lemma BuiltSysVIsWellFormed(hash: string -> Word, t: Symbols, nbuckets: nat)
    requires AllNamed(t) && nbuckets > 0
    ensures BuildSysV(hash, t, nbuckets).WellFormed(hash, t)
  {
    hide BuildSysV, LastOf;
    BuiltLinks(hash, t, nbuckets);
    var h := BuildSysV(hash, t, nbuckets);
    var rank: seq<nat> := seq<nat>(|t.syms|, i requires 0 <= i < |t.syms| => i);
    assert h.Shaped(t);
    forall i | 0 < i < |t.syms| ensures h.chains[i] < i {
      assert h.chains[i] == LastOf(hash, t, nbuckets, HashBucket(hash, t, nbuckets, i), i);
    }
    forall b | 0 <= b < |h.buckets| ensures h.buckets[b] < |t.syms| {
      assert h.buckets[b] == LastOf(hash, t, nbuckets, b, |t.syms|);
    }
    assert h.Acyclic(t, rank);
    forall i | 0 < i < |t.syms| ensures h.OnChain(hash, t, i) {
      var b := HashBucket(hash, t, nbuckets, i);
      var k := ChainReaches(hash, t, nbuckets, i, |t.syms|);
      assert h.buckets[b] == LastOf(hash, t, nbuckets, b, |t.syms|);
    }
  }

  /** Symbols sorted for a GNU table have well-formed tables of both forms. */
  lemma BothFormsExist(hs: Hashes, t: Symbols, symndx: nat, nbuckets: nat, maskwords: nat, shift2: nat)
    requires AllNamed(t) && SortedByBucket(hs.gnu, t, symndx, nbuckets) && maskwords > 0 && shift2 < 32
    ensures exists g: GnuHash, h: SysVHash ::
              g.WellFormed(hs.gnu, 64, t) && h.WellFormed(hs.sysv, t) && g.symndx == symndx
  {
    BuiltIsWellFormed(hs.gnu, 64, t, symndx, nbuckets, maskwords, shift2);
    BuiltSysVIsWellFormed(hs.sysv, t, nbuckets);
    assert BuildGnu(hs.gnu, 64, t, symndx, nbuckets, maskwords, shift2).symndx == symndx;
  }

  // ---- choosing the form

  ghost predicate UniqueNames(t: Symbols) {
    forall i, j, name | 1 <= i < j && t.Matches(i, name) :: !t.Matches(j, name)
  }

  datatype HashTable = Gnu(gnu: GnuHash) | SysV(sysv: SysVHash) | NotHash

  /** `link` are the symbols of the linked symbol table, when they can be read. */
  datatype Section = Section(table: HashTable, offset: nat, size: nat, link: Result<Symbols, Error>)

  datatype Hashes = Hashes(gnu: string -> Word, sysv: string -> Word)

  /** The bytes the table's header and arrays take up by the code's count. */
  function TableSize(table: HashTable, t: Symbols): int {
    match table
    case Gnu(g) => 16 + 4 * |g.filter| + 4 * |g.buckets| + 4 * (|t.syms| - g.symndx)
    case SysV(h) => 8 + 4 * |h.buckets| + 4 * |h.chains|
    case NotHash => 0
  }

  // Where in the section the reads of entries end, filter words taking up 8 bytes.

  function FilterEnd(w: nat): nat {
    16 + 8 * (w + 1)
  }

  function GnuBucketEnd(g: GnuHash, b: nat): nat {
    16 + 8 * |g.filter| + 4 * (b + 1)
  }

  function ValueEnd(g: GnuHash, k: nat): nat {
    16 + 8 * |g.filter| + 4 * |g.buckets| + 4 * (k + 1)
  }

  function SysVBucketEnd(b: nat): nat {
    8 + 4 * (b + 1)
  }

  function ChainEnd(h: SysVHash, k: nat): nat {
    8 + 4 * |h.buckets| + 4 * (k + 1)
  }

  /** Every entry a lookup of some name may read lies in the first `size` bytes. */
  ghost predicate ReadsInside(table: HashTable, t: Symbols, size: nat) {
    match table
    case Gnu(g) =>
      && (forall w: nat | w < |g.filter| :: FilterEnd(w) <= size)
      && (forall b: nat | b < |g.buckets| :: GnuBucketEnd(g, b) <= size)
      && (forall k: nat | k < |g.values| :: ValueEnd(g, k) <= size)
    case SysV(h) =>
      && (forall b: nat | b < |h.buckets| :: SysVBucketEnd(b) <= size)
      && (forall k: nat | k < |t.syms| :: ChainEnd(h, k) <= size)
    case NotHash => true
  }

  /** The size check keeps the reads of the System V form inside the section. Those of
      the GNU form are inside exactly when there are 4 bytes more to a filter word than
      are checked for. */
  lemma CheckedReadsInsideIff(table: HashTable, t: Symbols, size: nat)
    requires TableSize(table, t) <= size
    requires (table.Gnu? ==> table.gnu.Shaped(t)) && (table.SysV? ==> table.sysv.Shaped(t))
    ensures ReadsInside(table, t, size) <==> (table.Gnu? ==> TableSize(table, t) + 4 * |table.gnu.filter| <= size)
  {
    if table.Gnu? {
      var g := table.gnu;
      var end := TableSize(table, t) + 4 * |g.filter|;
      if g.values == [] {
        assert GnuBucketEnd(g, |g.buckets| - 1) == end;
      } else {
        assert ValueEnd(g, |g.values| - 1) == end;
      }
    }
  }

  /** A System V section passes the check exactly when its header and all its entries are
      inside. */
  lemma SysVCheckExact(h: SysVHash, t: Symbols, size: nat)
    ensures TableSize(SysV(h), t) <= size <==>
              && 8 <= size && (forall b: nat | b < |h.buckets| :: SysVBucketEnd(b) <= size)
              && (forall k: nat | k < |h.chains| :: ChainEnd(h, k) <= size)
    ensures forall b: nat :: SysVBucketEnd(b) == 8 + 4 * b + 4
    ensures forall k: nat :: ChainEnd(h, k) == 8 + 4 * |h.buckets| + 4 * k + 4
  {
    if h.chains != [] {
      assert ChainEnd(h, |h.chains| - 1) == TableSize(SysV(h), t);
    } else if h.buckets != [] {
      assert SysVBucketEnd(|h.buckets| - 1) == TableSize(SysV(h), t);
    }
  }

  /** So every GNU table passes the check in a section too short for it. */
  lemma ShortSectionPasses(g: GnuHash, t: Symbols)
    requires g.Shaped(t)
    ensures TableSize(Gnu(g), t) >= 0 && !ReadsInside(Gnu(g), t, TableSize(Gnu(g), t))
  {
    CheckedReadsInsideIff(Gnu(g), t, TableSize(Gnu(g), t));
  }

  /** The arrays of a section that passes the checks are there to be read. */
  ghost predicate Readable(hs: Hashes, bufSize: nat, sec: Section, name: string) {
    sec.link.Ok? && sec.offset + sec.size < bufSize && TableSize(sec.table, sec.link.value) <= sec.size ==>
      match sec.table
      case Gnu(g) => g.Shaped(sec.link.value)
      case SysV(h) => h.Shaped(sec.link.value) &&
          h.WayDown(sec.link.value, name, h.buckets[hs.sysv(name) % |h.buckets|])
      case NotHash => true
  }

  ghost predicate Sound(hs: Hashes, bufSize: nat, sec: Section) {
    && sec.link.Ok? && sec.offset + sec.size < bufSize && sec.size >= TableSize(sec.table, sec.link.value)
    && match sec.table
       case Gnu(g) => g.WellFormed(hs.gnu, 64, sec.link.value)
       case SysV(h) => h.WellFormed(hs.sysv, sec.link.value)
       case NotHash => false
  }

  function FirstCovered(table: HashTable): nat {
    if table.Gnu? then table.gnu.symndx else 1
  }

  ghost predicate Passes(bufSize: nat, sec: Section) {
    && !sec.table.NotHash? && sec.link.Ok? && sec.offset + sec.size < bufSize
    && TableSize(sec.table, sec.link.value) <= sec.size
  }

  /** What either form makes of a table whose arrays are long enough. */
  ghost predicate TableAnswer(hs: Hashes, table: HashTable, t: Symbols, name: string, r: Result<Option<nat>, Error>) {
    match table
    case Gnu(g) => g.Shaped(t) ==> GnuAnswer(g, t, 64, name, hs.gnu(name), r)
    case SysV(h) =>
      h.Shaped(t) ==> forall n: nat | h.Halts(t, name, h.buckets[hs.sysv(name) % |h.buckets|], n) ::
        r == h.Found(t, name, h.buckets[hs.sysv(name) % |h.buckets|], n)
    case NotHash => true
  }

  /** What a lookup in one section owes its caller. */
  ghost predicate SectionAnswer(hs: Hashes, bufSize: nat, sec: Section, name: string, r: Result<Option<nat>, Error>) {
    && (sec.table.NotHash? ==> r == Err(NotAHashSection))
    && (!sec.table.NotHash? && sec.link.Err? ==> r == Err(sec.link.error))
    && (!sec.table.NotHash? && sec.link.Ok? && sec.offset + sec.size >= bufSize ==> r == Err(OutsideFile))
    && (!sec.table.NotHash? && sec.link.Ok? && sec.offset + sec.size < bufSize ==>
          sec.size < TableSize(sec.table, sec.link.value) ==> r == Err(TooSmall))
    && (Passes(bufSize, sec) ==> TableAnswer(hs, sec.table, sec.link.value, name, r))
    && (Sound(hs, bufSize, sec) ==> Answers(sec.link.value, FirstCovered(sec.table), name, r))
  }

  /** Sections of both forms over the same uniquely named symbols give the same answer
      exactly when the name is not one of those the GNU form leaves out. */
  lemma FormsAgree(hs: Hashes, bufSize: nat, gnu: Section, sysv: Section, name: string, r: Result<Option<nat>, Error>,
                   q: Result<Option<nat>, Error>)
    requires gnu.table.Gnu? && sysv.table.SysV? && gnu.link == sysv.link
    requires Sound(hs, bufSize, gnu) && SectionAnswer(hs, bufSize, gnu, name, r)
    requires Sound(hs, bufSize, sysv) && SectionAnswer(hs, bufSize, sysv, name, q)
    requires 1 <= gnu.table.gnu.symndx && UniqueNames(gnu.link.value)
    ensures r == q <==> forall i | 1 <= i < gnu.table.gnu.symndx :: !gnu.link.value.Matches(i, name)
  {
    if r.value.Some? && q.value.Some? {
      assert r.value.value == q.value.value;
    }
  }

  method HashLookup(hs: Hashes, bufSize: nat, sec: Section, name: string) returns (r: Result<Option<nat>, Error>)
    requires Readable(hs, bufSize, sec, name)
    ensures SectionAnswer(hs, bufSize, sec, name, r)
  {
    if sec.table.NotHash? {
      return Err(NotAHashSection);
    }
    if sec.link.Err? {
      return Err(sec.link.error);
    }
    var t := sec.link.value;
    if sec.offset + sec.size >= bufSize {
      return Err(OutsideFile);
    }
    if sec.size < TableSize(sec.table, t) {
      return Err(TooSmall);
    }
    match sec.table {
      case Gnu(g) =>
        r := GetSymbolFromGnuHashTable(hs.gnu, 64, name, g, t);
      case SysV(h) =>
        r := GetSymbolFromSysVHashTable(hs.sysv, name, h, t);
        WalkEndsIff(h, t, name, h.buckets[hs.sysv(name) % |h.buckets|]);
        ghost var n: nat :| h.Halts(t, name, h.buckets[hs.sysv(name) % |h.buckets|], n);
        if h.WellFormed(hs.sysv, t) {
          SysVComplete(h, hs.sysv, t, name, n);
        }
    }
  }

  ghost predicate IsFirstHash(sections: seq<Section>, i: int) {
    0 <= i < |sections| && !sections[i].table.NotHash? && forall j | 0 <= j < i :: sections[j].table.NotHash?
  }

  lemma OneFirstHash(sections: seq<Section>, i: int)
    requires 0 <= i < |sections| && !sections[i].table.NotHash? && forall j | 0 <= j < i :: sections[j].table.NotHash?
    ensures forall j :: IsFirstHash(sections, j) <==> j == i
  {
  }

  lemma NoFirstHash(sections: seq<Section>)
    requires forall j | 0 <= j < |sections| :: sections[j].table.NotHash?
    ensures forall j :: !IsFirstHash(sections, j)
  {
  }

  /** Asks the first hash section, whichever form it has. */
  method LookupSymbolByName(hs: Hashes, bufSize: nat, sections: seq<Section>,
                            name: string)
    returns (r: Result<Option<nat>, Error>)
    requires forall i | IsFirstHash(sections, i) :: Readable(hs, bufSize, sections[i], name)
    ensures (forall i | 0 <= i < |sections| :: sections[i].table.NotHash?) ==> r == Err(NoHashSection)
    ensures forall i | IsFirstHash(sections, i) :: SectionAnswer(hs, bufSize, sections[i], name, r)
  {
    hide SectionAnswer, Readable, IsFirstHash;
    for i := 0 to |sections|
      invariant forall j | 0 <= j < i :: sections[j].table.NotHash?
    {
      if !sections[i].table.NotHash? {
        OneFirstHash(sections, i);
        r := HashLookup(hs, bufSize, sections[i], name);
        return;
      }
    }
    NoFirstHash(sections);
    return Err(NoHashSection);
  }
}
