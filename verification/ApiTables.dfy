/** The op ids and the maps from ids to functions that the generators emit. */
module ApiTables {

  /** A field of a HIP dispatch table; functions have typedef names as types. */
  datatype Field = Field(name: string, typeName: string)

  /** The fields given an op id. */
  predicate HasId(f: Field) {
    f.name != "size" && f.typeName != "size_t"
  }

  /** The fields given an entry in the switch map and in the check map. */
  predicate HasEntry(f: Field) {
    f.typeName != "size_t"
  }

  /** The places of the fields with the property, in order. */
  function Places(t: seq<Field>, p: Field -> bool): seq<nat> {
    if t == [] then []
    else
      var n := |t| - 1;
      if p(t[n]) then Places(t[..n], p) + [n] else Places(t[..n], p)
  }

  lemma PlacesStep(t: seq<Field>, n: nat, p: Field -> bool)
    requires n < |t|
    ensures Places(t[..n + 1], p) == if p(t[n]) then Places(t[..n], p) + [n] else Places(t[..n], p)
  {
    assert t[..n + 1][..n] == t[..n];
  }

  lemma {:induction false} PlacesExact(t: seq<Field>, p: Field -> bool)
    ensures forall k: nat :: k in Places(t, p) <==> k < |t| && p(t[k])
    ensures forall i, j | 0 <= i < j < |Places(t, p)| :: Places(t, p)[i] < Places(t, p)[j]
    decreases |t|
  {
    if t != [] {
      var n := |t| - 1;
      var before := Places(t[..n], p);
      PlacesExact(t[..n], p);
      assert forall i | 0 <= i < |before| :: before[i] in before;
      assert forall k: nat | k < n :: t[..n][k] == t[k];
    }
  }

  /** The number of ids given out before the table. */
  function FirstId(tables: seq<seq<Field>>, k: nat): nat
    requires k <= |tables|
  {
    if k == 0 then 0 else FirstId(tables, k - 1) + |Places(tables[k - 1], HasId)|
  }

  /** The ids of one table: places of fields with consecutive numbers. */
  predicate Numbered(ids: seq<(nat, nat)>, places: seq<nat>, first: nat) {
    |ids| == |places| && forall i | 0 <= i < |ids| :: ids[i] == (places[i], first + i)
  }

  /** The op ids of one table, `FIRST` and `LAST` of its range among them. */
  datatype Ids = Ids(first: nat, ids: seq<(nat, nat)>, last: int)

  method GenerateTableIds(t: seq<Field>, start: nat) returns (r: Ids, next: nat)
    ensures r.first == start && Numbered(r.ids, Places(t, HasId), start)
    ensures r.last == start + |Places(t, HasId)| - 1 && next == r.last + 1
    ensures forall j: nat :: (exists e :: e in r.ids && e.0 == j) <==>
              j < |t| && t[j].name != "size" && t[j].typeName != "size_t"
    ensures forall a, b | 0 <= a < b < |r.ids| :: r.ids[a].0 < r.ids[b].0 && r.ids[b].1 == r.ids[a].1 + (b - a)
  {
    var ids: seq<(nat, nat)> := [];
    next := start;
    for j := 0 to |t|
      invariant Numbered(ids, Places(t[..j], HasId), start) && next == start + |ids|
    {
      PlacesStep(t, j, HasId);
      if t[j].name == "size" || t[j].typeName == "size_t" {
        continue;
      }
      ids := ids + [(j, next)];
      next := next + 1;
    }
    assert t[..|t|] == t;
    r := Ids(start, ids, next - 1);
    PlacesExact(t, HasId);
    IdsListed(ids, Places(t, HasId), start);
  }

  lemma IdsListed(ids: seq<(nat, nat)>, places: seq<nat>, first: nat)
    requires Numbered(ids, places, first)
    ensures forall j: nat :: (exists e :: e in ids && e.0 == j) <==> j in places
  {
    forall j: nat | j in places ensures exists e :: e in ids && e.0 == j {
      var i :| 0 <= i < |places| && places[i] == j;
      assert ids[i] in ids;
    }
  }

  /** The ids of table `k` follow those of the tables before it. */
  ghost predicate IdsOf(tables: seq<seq<Field>>, k: nat, ids: Ids)
    requires k < |tables|
  {
    && ids.first == FirstId(tables, k) && ids.last == FirstId(tables, k + 1) - 1
    && Numbered(ids.ids, Places(tables[k], HasId), ids.first)
  }

  method GenerateIds(tables: seq<seq<Field>>) returns (r: seq<Ids>)
    ensures |r| == |tables| && forall k | 0 <= k < |r| :: IdsOf(tables, k, r[k])
    ensures r != [] ==> r[0].first == 0
    ensures forall k | 0 < k < |r| :: r[k].first == r[k - 1].last + 1
  {
    hide Places, Numbered;
    r := [];
    var next := 0;
    for k := 0 to |tables|
      invariant |r| == k && next == FirstId(tables, k)
      invariant forall j | 0 <= j < k :: IdsOf(tables, j, r[j])
    {
      var ids;
      ids, next := GenerateTableIds(tables[k], next);
      assert IdsOf(tables, k, ids);
      r := r + [ids];
    }
  }

  /** Both the switch map and the check map of a table. */
  method GenerateMap(t: seq<Field>) returns (m: seq<nat>)
    ensures m == Places(t, HasEntry)
    ensures forall j: nat :: j in m <==> j < |t| && t[j].typeName != "size_t"
    ensures forall a, b | 0 <= a < b < |m| :: m[a] < m[b]
  {
    m := [];
    for j := 0 to |t|
      invariant m == Places(t[..j], HasEntry)
    {
      PlacesStep(t, j, HasEntry);
      if t[j].typeName != "size_t" {
        m := m + [j];
      }
    }
    assert t[..|t|] == t;
    PlacesExact(t, HasEntry);
  }

  /** Every id of the table, less the first, finds its own field in the map. */
  ghost predicate Aligned(ids: Ids, m: seq<nat>) {
    forall i | 0 <= i < |ids.ids| :: 0 <= ids.ids[i].1 - ids.first < |m| && m[ids.ids[i].1 - ids.first] == ids.ids[i].0
  }

  /** A field that is no function but looks like one to the maps. */
  predicate IsStray(f: Field) {
    HasEntry(f) && !HasId(f)
  }

  /** No function comes after such a field. */
  ghost predicate StraysLast(t: seq<Field>) {
    forall i, j | 0 <= i < j < |t| && IsStray(t[i]) :: !HasId(t[j])
  }

  /** As long as no function follows a stray, the map is the ids and then strays. */
  lemma {:induction false} MapExtendsIds(t: seq<Field>)
    requires StraysLast(t)
    ensures Places(t, HasId) <= Places(t, HasEntry)
    ensures (forall i | 0 <= i < |t| :: !IsStray(t[i])) ==> Places(t, HasId) == Places(t, HasEntry)
    decreases |t|
  {
    if t != [] {
      var n := |t| - 1;
      assert t == t[..n + 1];
      PlacesStep(t, n, HasId);
      PlacesStep(t, n, HasEntry);
      MapExtendsIds(t[..n]);
      if HasId(t[n]) {
        assert forall i | 0 <= i < n :: !IsStray(t[i]);
      }
    }
  }

  /** Functions after the stray at `s` are not where their ids say. */
  lemma StrayShifts(t: seq<Field>, s: nat, i: nat)
    requires s < |t| && IsStray(t[s]) && i < |Places(t, HasId)| && s < Places(t, HasId)[i] < |t|
    requires i < |Places(t, HasEntry)|
    ensures Places(t, HasEntry)[i] != Places(t, HasId)[i]
  {
    var n := Places(t, HasId)[i];
    if Places(t, HasEntry)[i] == n {
      PrefixPlaces(t, n, HasId, i);
      PrefixPlaces(t, n, HasEntry, i);
      StrayCounts(t[..n], s);
      assert false;
    }
  }

  /** The places before the one numbered `i` are the places of the fields before it. */
  lemma {:induction false} PrefixPlaces(t: seq<Field>, n: nat, p: Field -> bool, i: nat)
    requires i < |Places(t, p)| && Places(t, p)[i] == n < |t|
    ensures Places(t[..n], p) == Places(t, p)[..i]
    decreases |t|
  {
    var m := |t| - 1;
    var before := Places(t[..m], p);
    if i < |before| {
      PlacesExact(t[..m], p);
      assert before[i] in before;
      PrefixPlaces(t[..m], n, p, i);
      assert t[..m][..n] == t[..n];
    }
  }

  /** With a stray there are more entries than ids. */
  lemma {:induction false} StrayCounts(t: seq<Field>, s: nat)
    requires s < |t| && IsStray(t[s])
    ensures |Places(t, HasEntry)| > |Places(t, HasId)|
    decreases |t|
  {
    var n := |t| - 1;
    assert t == t[..n + 1];
    PlacesStep(t, n, HasId);
    PlacesStep(t, n, HasEntry);
    if s < n {
      StrayCounts(t[..n], s);
    } else {
      EntriesCoverIds(t[..n]);
    }
  }

  lemma {:induction false} EntriesCoverIds(t: seq<Field>)
    ensures |Places(t, HasEntry)| >= |Places(t, HasId)|
    decreases |t|
  {
    if t != [] {
      var n := |t| - 1;
      assert t == t[..n + 1];
      PlacesStep(t, n, HasId);
      PlacesStep(t, n, HasEntry);
      EntriesCoverIds(t[..n]);
    }
  }

  /** In-range ids index the maps at their own functions, exactly when no function
      comes after a field named `size` that is not of type `size_t`. */
  lemma AlignedIff(t: seq<Field>, ids: Ids)
    requires Numbered(ids.ids, Places(t, HasId), ids.first)
    ensures Aligned(ids, Places(t, HasEntry)) <==> StraysLast(t)
  {
    hide Places, IsStray;
    var p, m := Places(t, HasId), Places(t, HasEntry);
    if StraysLast(t) {
      MapExtendsIds(t);
    } else {
      var s, j :| 0 <= s < j < |t| && IsStray(t[s]) && HasId(t[j]);
      PlacesExact(t, HasId);
      assert j in p;
      var i :| 0 <= i < |p| && p[i] == j;
      assert ids.ids[i] == (j, ids.first + i);
      if i < |m| {
        StrayShifts(t, s, i);
        assert m[i] != ids.ids[i].0;
      }
    }
  }

  /** In the names of fields: no function comes after a `size` that is no `size_t`. */
  lemma StraysLastExact(t: seq<Field>)
    ensures StraysLast(t) <==>
              !exists i, j :: 0 <= i < j < |t| && t[i].name == "size" && t[i].typeName != "size_t" &&
                              t[j].name != "size" && t[j].typeName != "size_t"
  {
    if !StraysLast(t) {
      var i, j :| 0 <= i < j < |t| && IsStray(t[i]) && HasId(t[j]);
      assert t[i].name == "size" && t[j].name != "size";
    }
    if i, j :| 0 <= i < j < |t| && t[i].name == "size" && t[i].typeName != "size_t" &&
               t[j].name != "size" && t[j].typeName != "size_t" {
      assert IsStray(t[i]) && HasId(t[j]);
    }
  }

  /** The ranges follow one another: an id below the total is in the range of one
      table only, and at most one field of it. */
  lemma {:induction false} RangesDisjoint(tables: seq<seq<Field>>, j: nat, k: nat)
    requires j < k <= |tables|
    ensures FirstId(tables, j + 1) <= FirstId(tables, k)
    decreases k
  {
    if j + 1 < k {
      RangesDisjoint(tables, j, k - 1);
    }
  }

  // ---- the HSA generator

  /** A field of an HSA table: functions are pointers to the declared type of a function. */
  datatype HsaField = HsaField(name: string, isFunction: bool)

  /** The functions of all tables: tables in order, and fields in order. */
  function HsaPlaces(tables: seq<seq<HsaField>>): seq<(nat, nat)> {
    if tables == [] then [] else HsaPlaces(tables[..|tables| - 1]) + InTable(tables[|tables| - 1], |tables| - 1)
  }

  function InTable(t: seq<HsaField>, k: nat): seq<(nat, nat)> {
    if t == [] then []
    else
      var n := |t| - 1;
      if t[n].isFunction then InTable(t[..n], k) + [(k, n)] else InTable(t[..n], k)
  }

  lemma InTableStep(t: seq<HsaField>, n: nat, k: nat)
    requires n < |t|
    ensures InTable(t[..n + 1], k) == if t[n].isFunction then InTable(t[..n], k) + [(k, n)] else InTable(t[..n], k)
  {
    assert t[..n + 1][..n] == t[..n];
  }

  /** What the places list: exactly the functions, by table and then by field. */
  lemma {:induction false} InTableExact(t: seq<HsaField>, k: nat)
    ensures forall e :: e in InTable(t, k) <==> e.0 == k && e.1 < |t| && t[e.1].isFunction
    ensures forall i, j | 0 <= i < j < |InTable(t, k)| :: InTable(t, k)[i].1 < InTable(t, k)[j].1
    decreases |t|
  {
    if t != [] {
      InTableExact(t[..|t| - 1], k);
    }
  }

  ghost predicate Before(e: (nat, nat), f: (nat, nat)) {
    e.0 < f.0 || (e.0 == f.0 && e.1 < f.1)
  }

  /** Every function of every table has one number, and they go up with the place. */
  lemma {:induction false} HsaPlacesExact(tables: seq<seq<HsaField>>)
    ensures forall e :: e in HsaPlaces(tables) <==> e.0 < |tables| && e.1 < |tables[e.0]| && tables[e.0][e.1].isFunction
    ensures forall i, j | 0 <= i < j < |HsaPlaces(tables)| :: Before(HsaPlaces(tables)[i], HsaPlaces(tables)[j])
    decreases |tables|
  {
    if tables != [] {
      var n := |tables| - 1;
      var a, b := HsaPlaces(tables[..n]), InTable(tables[n], n);
      HsaPlacesExact(tables[..n]);
      InTableExact(tables[n], n);
      forall i, j | 0 <= i < j < |a + b| ensures Before((a + b)[i], (a + b)[j]) {
        if i < |a| <= j {
          assert a[i] in a && b[j - |a|] in b;
        } else if |a| <= i {
          assert b[i - |a|] in b && b[j - |a|] in b;
        }
      }
    }
  }

  method GenerateHsaIds(tables: seq<seq<HsaField>>) returns (ids: seq<((nat, nat), nat)>, submit: nat, last: nat)
    ensures |ids| == |HsaPlaces(tables)| && forall i | 0 <= i < |ids| :: ids[i] == (HsaPlaces(tables)[i], i)
    ensures submit == last == |ids|
  {
    ids := [];
    var idx := 0;
    ghost var places: seq<(nat, nat)> := [];
    for k := 0 to |tables|
      invariant places == HsaPlaces(tables[..k]) && idx == |ids| == |places|
      invariant forall i | 0 <= i < |ids| :: ids[i] == (places[i], i)
    {
      ghost var before := places;
      for j := 0 to |tables[k]|
        invariant places == before + InTable(tables[k][..j], k) && idx == |ids| == |places|
        invariant forall i | 0 <= i < |ids| :: ids[i] == (places[i], i)
      {
        InTableStep(tables[k], j, k);
        if tables[k][j].isFunction {
          ids := ids + [((k, j), idx)];
          idx := idx + 1;
          places := places + [(k, j)];
        }
      }
      assert tables[k][..|tables[k]|] == tables[k] && tables[..k + 1][..k] == tables[..k];
    }
    assert tables[..|tables|] == tables;
    submit, last := idx, idx;
  }

  /** Both the switch map and the check map. */
  method GenerateHsaMap(tables: seq<seq<HsaField>>) returns (m: seq<(nat, nat)>)
    ensures m == HsaPlaces(tables)
  {
    m := [];
    for k := 0 to |tables|
      invariant m == HsaPlaces(tables[..k])
    {
      ghost var before := m;
      for j := 0 to |tables[k]|
        invariant m == before + InTable(tables[k][..j], k)
      {
        InTableStep(tables[k], j, k);
        if tables[k][j].isFunction {
          m := m + [(k, j)];
        }
      }
      assert tables[k][..|tables[k]|] == tables[k] && tables[..k + 1][..k] == tables[..k];
    }
    assert tables[..|tables|] == tables;
  }

  /** An op id in range that is not the packet submission indexes the maps at its own
      function, whatever the tables; the packet submission would be outside them. */
  method GenerateHsaAligned(tables: seq<seq<HsaField>>) returns (ids: seq<((nat, nat), nat)>, submit: nat, last: nat,
                            m: seq<(nat, nat)>)
    ensures forall op | 0 <= op <= last && op != submit :: op < |m| && op < |ids| && ids[op] == (m[op], op)
    ensures submit == last >= |m|
    ensures forall e :: e in m <==> e.0 < |tables| && e.1 < |tables[e.0]| && tables[e.0][e.1].isFunction
    ensures forall i, j | 0 <= i < j < |m| :: Before(m[i], m[j])
  {
    ids, submit, last := GenerateHsaIds(tables);
    m := GenerateHsaMap(tables);
    HsaPlacesExact(tables);
  }
}
