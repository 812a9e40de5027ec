/** Wrapping the functions of the HSA tables, and intercepting queues. */
module HsaInterceptor {
  import opened Wrappers
  import opened Intercept

  /** The tables hold `size` functions, whose ops are their places; the op of a
      packet submission is `size`. `queueCreate` is the op of `hsa_queue_create`,
      `interceptCreate` and `interceptRegister` are those it is replaced with. */
  datatype Layout = Layout(size: nat, queueCreate: nat, interceptCreate: nat, interceptRegister: nat) {
    predicate Valid() {
      queueCreate < size && interceptCreate < size && interceptRegister < size && queueCreate != interceptCreate &&
          queueCreate != interceptRegister
    }
  }

  datatype State = State(status: Status, table: Option<seq<Fn>>, saved: seq<Fn>, user: set<nat>, internal: set<nat>,
                         flagged: bool)

  const FRESH := State(WaitingForApiTable, None, [], {}, {}, false)

  /** `loaded` says whether the runtime hands out its loader table. */
  datatype Call =
    | Capture(raw: seq<Fn>, loaded: bool)
    | Freeze
    | EnableUser(op: nat)
    | DisableUser(op: nat)
    | EnableInternal(op: nat)
    | DisableInternal(op: nat)
    | Invoke(op: nat)
    | Submit

  predicate Shaped(l: Layout, s: State) {
    l.Valid()
    && (s.status == ApiTableCaptured ==> s.table.Some?)
    && (s.table.Some? ==> |s.table.value| == |s.saved| == l.size)
  }

  predicate Sized(l: Layout, c: Call) {
    c.Capture? ==> |c.raw| == l.size
  }

  predicate Installed(l: Layout, s: State, op: nat) {
    s.table.Some? && op < |s.table.value| && s.table.value[op] == Wrapper(op)
  }

  /** What stands in the table for a function that is not wrapped. */
  function Real(l: Layout, s: State, op: nat): Fn
    requires op < |s.saved|
  {
    if op == l.queueCreate then CreateInterceptQueue else s.saved[op]
  }

  /** The table with the wrapper of `op` switched in or out, if there is a table. */
  function Switch(l: Layout, s: State, op: nat, on: bool): (r: State)
    requires Shaped(l, s) && op < l.size
    ensures Shaped(l, r)
  {
    if s.table.None? then s else s.(table := Some(s.table.value[op := if on then Wrapper(op) else Real(l, s, op)]))
  }

  function Froze(s: State): State {
    if s.flagged then s else s.(status := Frozen, flagged := true)
  }

  /** The state after a call, and the error it returns. */
  function Apply(l: Layout, s: State, c: Call): (r: (State, Option<Error>))
    requires Shaped(l, s) && Sized(l, c)
    ensures Shaped(l, r.0)
  {
    match c
    case Capture(raw, loaded) =>
      var t := s.(table := Some(raw), saved := raw);
      if !loaded then (t, Some(LoaderFailed))
      else Disable(l, t.(status := ApiTableCaptured, internal := t.internal - {l.queueCreate}), l.queueCreate)
    case Freeze => (Froze(s), None)
    case Submit => (Froze(s), None)
    case Invoke(op) => (if Installed(l, s, op) then Froze(s) else s, None)
    case EnableUser(op) =>
      var r := Enable(l, s, op);
      if r.1.Some? then r else (r.0.(user := r.0.user + {op}), None)
    case EnableInternal(op) =>
      var r := Enable(l, s, op);
      if r.1.Some? then r else (r.0.(internal := r.0.internal + {op}), None)
    case DisableUser(op) =>
      if s.status == WaitingForApiTable then (s, Some(NotCaptured))
      else if op > l.size then (s, Some(OutOfRange))
      else Disable(l, s.(user := s.user - {op}), op)
    case DisableInternal(op) =>
      if s.status == WaitingForApiTable then (s, Some(NotCaptured))
      else if op > l.size then (s, Some(OutOfRange))
      else Disable(l, s.(internal := s.internal - {op}), op)
  }

  function Enable(l: Layout, s: State, op: nat): (r: (State, Option<Error>))
    requires Shaped(l, s)
    ensures Shaped(l, r.0)
  {
    if s.status == WaitingForApiTable then (s, Some(NotCaptured))
    else if op > l.size then (s, Some(OutOfRange))
    else if op == l.size then (s, None)
    else if s.status != Frozen then (Switch(l, s, op, true), None)
    else if Installed(l, s, op) then (s, None)
    else (s, Some(WrapperNotInstalled))
  }

  /** Both ways to disable end with the same test, of the user's ops. */
  function Disable(l: Layout, s: State, op: nat): (r: (State, Option<Error>))
    requires Shaped(l, s) && op <= l.size
    ensures Shaped(l, r.0)
  {
    if op != l.size && op !in s.user then (Switch(l, s, op, false), None) else (s, None)
  }

  predicate AllSized(l: Layout, cs: seq<Call>) {
    forall i | 0 <= i < |cs| :: Sized(l, cs[i])
  }

  function Run(l: Layout, cs: seq<Call>): (s: State)
    requires l.Valid() && AllSized(l, cs)
    ensures Shaped(l, s)
  {
    if cs == [] then FRESH else Apply(l, Run(l, cs[..|cs| - 1]), cs[|cs| - 1]).0
  }

  lemma RunStep(l: Layout, cs: seq<Call>, c: Call)
    requires l.Valid() && AllSized(l, cs + [c])
    ensures AllSized(l, cs) && Run(l, cs + [c]) == Apply(l, Run(l, cs), c).0
  {
    assert forall i | 0 <= i < |cs| :: (cs + [c])[i] == cs[i];
    assert (cs + [c])[..|cs|] == cs;
  }

  predicate CapturedIn(cs: seq<Call>) {
    exists i | 0 <= i < |cs| :: cs[i].Capture? && cs[i].loaded
  }

  /** One capture succeeds, before the table is frozen, and it holds no wrapper then. */
  predicate Orderly(l: Layout, cs: seq<Call>) {
    && l.Valid() && AllSized(l, cs)
    && (forall i, k | 0 <= i < |cs| && cs[i].Capture? && 0 <= k < |cs[i].raw| :: cs[i].raw[k].Raw?)
    && (forall i | 0 <= i < |cs| && cs[i].Capture? :: !CapturedIn(cs[..i]))
    && (forall i | 0 <= i < |cs| && (cs[i].Freeze? || cs[i].Submit?) :: CapturedIn(cs[..i]))
  }

  lemma OrderlyPrefix(l: Layout, cs: seq<Call>, n: nat)
    requires Orderly(l, cs) && n <= |cs|
    ensures Orderly(l, cs[..n])
  {
    assert forall i | 0 <= i < n :: cs[..n][..i] == cs[..i] && cs[..n][i] == cs[i];
  }

  lemma CapturedStep(cs: seq<Call>)
    requires cs != []
    ensures var n := |cs| - 1; CapturedIn(cs) <==> CapturedIn(cs[..n]) || (cs[n].Capture? && cs[n].loaded)
  {
    var n := |cs| - 1;
    assert forall i | 0 <= i < n :: cs[..n][i] == cs[i];
  }

  /** Once captured, entries are wrappers or stand for the originals, so that the
      raw `hsa_queue_create` is not among them, and the table functions the user
      has enabled have their wrappers installed. */
  ghost predicate Safe(l: Layout, s: State) {
    && Shaped(l, s)
    && (s.status == WaitingForApiTable ==> s.user == {} == s.internal && (s.table.Some? ==> s.table.value == s.saved))
    && (s.status != WaitingForApiTable ==> s.table.Some?)
    && (forall i | 0 <= i < |s.saved| :: s.saved[i].Raw?)
    && (s.status != WaitingForApiTable ==>
        forall i | 0 <= i < l.size :: s.table.value[i] == Real(l, s, i) || s.table.value[i] == Wrapper(i))
    && (forall op | op in s.user && op != l.size :: Installed(l, s, op))
    && (forall op | op in s.internal :: op <= l.size)
    && (s.status == Frozen <==> s.flagged)
  }

  lemma ApplyKeepsSafe(l: Layout, s: State, c: Call)
    requires Safe(l, s) && Sized(l, c)
    requires c.Capture? ==> s.status == WaitingForApiTable && forall k | 0 <= k < |c.raw| :: c.raw[k].Raw?
    requires c.Freeze? || c.Submit? ==> s.status != WaitingForApiTable
    ensures Safe(l, Apply(l, s, c).0)
    ensures Apply(l, s, c).0.status != WaitingForApiTable <==>
              s.status != WaitingForApiTable || (c.Capture? && c.loaded)
    ensures Apply(l, s, c).0.saved == if c.Capture? then c.raw else s.saved
  {
    match c
    case EnableUser(op) => EnableKeepsSafe(l, s, op);
    case EnableInternal(op) => EnableKeepsSafe(l, s, op);
    case DisableUser(op) => DisableKeepsSafe(l, s, op);
    case DisableInternal(op) => DisableKeepsSafe(l, s, op);
    case _ =>
  }

  lemma EnableKeepsSafe(l: Layout, s: State, op: nat)
    requires Safe(l, s)
    ensures Safe(l, Apply(l, s, EnableUser(op)).0) && Safe(l, Apply(l, s, EnableInternal(op)).0)
  {
  }

  lemma DisableKeepsSafe(l: Layout, s: State, op: nat)
    requires Safe(l, s)
    ensures Safe(l, Apply(l, s, DisableUser(op)).0) && Safe(l, Apply(l, s, DisableInternal(op)).0)
  {
  }

  lemma CapturedAt(cs: seq<Call>, i: nat)
    requires i < |cs| && cs[i].Capture? && cs[i].loaded
    ensures CapturedIn(cs)
  {
  }

  lemma FreshIsSafe(l: Layout)
    requires l.Valid()
    ensures Safe(l, FRESH) && !CapturedIn([])
  {
  }

  /** Every orderly run is safe, and knows what was captured. */
  lemma {:induction false} RunsAreSafe(l: Layout, cs: seq<Call>)
    requires Orderly(l, cs)
    ensures Safe(l, Run(l, cs))
    ensures Run(l, cs).status != WaitingForApiTable <==> CapturedIn(cs)
    ensures forall i | 0 <= i < |cs| && cs[i].Capture? && cs[i].loaded :: Run(l, cs).saved == cs[i].raw
    decreases |cs|
  {
    hide Apply, Safe, CapturedIn;
    if cs == [] {
      FreshIsSafe(l);
    } else {
      var n := |cs| - 1;
      OrderlyPrefix(l, cs, n);
      RunsAreSafe(l, cs[..n]);
      CapturedStep(cs);
      ApplyKeepsSafe(l, Run(l, cs[..n]), cs[n]);
      forall i | 0 <= i < n && cs[i].Capture? && cs[i].loaded
        ensures CapturedIn(cs[..n]) && Run(l, cs[..n]).saved == cs[i].raw {
        assert cs[..n][i] == cs[i];
        CapturedAt(cs[..n], i);
      }
    }
  }

  // ---- ops enabled internally

  ghost predicate InternalInstalled(l: Layout, s: State) {
    forall op | op in s.internal && op != l.size :: Installed(l, s, op)
  }

  /** The call takes the wrapper away from a function enabled internally. */
  predicate Strips(l: Layout, s: State, c: Call) {
    c.DisableUser? && s.status != WaitingForApiTable && c.op < l.size && c.op in s.internal
  }

  lemma StripsStep(l: Layout, s: State, c: Call)
    requires Safe(l, s) && Sized(l, c) && InternalInstalled(l, s) && (c.Capture? ==> s.status == WaitingForApiTable)
    ensures InternalInstalled(l, Apply(l, s, c).0) <==> !Strips(l, s, c)
  {
    var t := Apply(l, s, c).0;
    if Strips(l, s, c) {
      assert c.op in t.internal && !Installed(l, t, c.op);
    } else {
      assert forall op | op in s.internal && op in t.internal && op != l.size :: Installed(l, s, op);
    }
  }

  ghost predicate NoneStripped(l: Layout, cs: seq<Call>, n: nat)
    requires n <= |cs| && l.Valid() && AllSized(l, cs)
  {
    forall i | 0 <= i < n :: !Strips(l, Run(l, cs[..i]), cs[i])
  }

  lemma StripsAt(l: Layout, cs: seq<Call>, n: nat)
    requires Orderly(l, cs) && n < |cs| && InternalInstalled(l, Run(l, cs[..n]))
    ensures InternalInstalled(l, Run(l, cs[..n + 1])) <==> !Strips(l, Run(l, cs[..n]), cs[n])
  {
    OrderlyPrefix(l, cs, n);
    RunsAreSafe(l, cs[..n]);
    OrderlyPrefix(l, cs, n + 1);
    assert cs[..n + 1] == cs[..n] + [cs[n]];
    RunStep(l, cs[..n], cs[n]);
    StripsStep(l, Run(l, cs[..n]), cs[n]);
  }

  lemma {:induction false} StaysInstalled(l: Layout, cs: seq<Call>, n: nat)
    requires Orderly(l, cs) && n <= |cs| && NoneStripped(l, cs, n)
    ensures InternalInstalled(l, Run(l, cs[..n]))
    decreases n
  {
    if n > 0 {
      StaysInstalled(l, cs, n - 1);
      StripsAt(l, cs, n - 1);
    }
  }

  /** Throughout an orderly run every function enabled internally has its wrapper
      installed, exactly when the user never disables such a function. */
  lemma InternalInstalledIff(l: Layout, cs: seq<Call>)
    requires Orderly(l, cs)
    ensures (forall n | 0 <= n <= |cs| :: InternalInstalled(l, Run(l, cs[..n]))) <==> NoneStripped(l, cs, |cs|)
  {
    if NoneStripped(l, cs, |cs|) {
      forall n | 0 <= n <= |cs| ensures InternalInstalled(l, Run(l, cs[..n])) {
        StaysInstalled(l, cs, n);
      }
    } else {
      var n :| 0 <= n < |cs| && Strips(l, Run(l, cs[..n]), cs[n]);
      if InternalInstalled(l, Run(l, cs[..n])) {
        StripsAt(l, cs, n);
      }
    }
  }

  /** A run that takes the wrapper away from a function enabled internally, although
      the table is frozen. */
  lemma InternalStripped(l: Layout, raw: seq<Fn>, op: nat)
    requires l.Valid() && |raw| == l.size && op < l.size && forall k | 0 <= k < |raw| :: raw[k].Raw?
    ensures var cs := [Capture(raw, true), EnableInternal(op), Freeze, DisableUser(op)];
            Orderly(l, cs) && Run(l, cs).status == Frozen && op in Run(l, cs).internal && !Installed(l, Run(l, cs), op)
  {
    var c1 := [Capture(raw, true)];
    var c2 := c1 + [EnableInternal(op)];
    var c3 := c2 + [Call.Freeze];
    var cs := [Capture(raw, true), EnableInternal(op), Call.Freeze, DisableUser(op)];
    RunStep(l, [], Capture(raw, true));
    assert [] + c1 == c1;
    RunStep(l, c1, EnableInternal(op));
    RunStep(l, c2, Call.Freeze);
    assert c3 + [DisableUser(op)] == cs;
    RunStep(l, c3, DisableUser(op));
    assert cs[..2][0].Capture?;
  }

  // ---- freezing

  /** A call that switches a wrapper out. */
  predicate SwitchesOut(l: Layout, s: State, c: Call) {
    (c.DisableUser? || (c.DisableInternal? && c.op !in s.user)) && Installed(l, s, c.op)
  }

  /** A call on a frozen table changes it exactly when it disables a function whose
      wrapper is installed, and is not the internal disabling of one the user has
      enabled. */
  lemma FrozenTableChanges(l: Layout, cs: seq<Call>, c: Call)
    requires Orderly(l, cs + [c]) && Orderly(l, cs) && Run(l, cs).status == Frozen
    ensures Run(l, cs + [c]).table != Run(l, cs).table <==> SwitchesOut(l, Run(l, cs), c)
    ensures Run(l, cs + [c]).status == Frozen
  {
    RunsAreSafe(l, cs);
    RunStep(l, cs, c);
    assert (cs + [c])[..|cs|] == cs && (cs + [c])[|cs|] == c;
    FrozenStep(l, Run(l, cs), c);
  }

  lemma FrozenStep(l: Layout, s: State, c: Call)
    requires Safe(l, s) && s.status == Frozen && Sized(l, c) && !c.Capture?
    ensures Apply(l, s, c).0.table != s.table <==> SwitchesOut(l, s, c)
    ensures Apply(l, s, c).0.status == Frozen
  {
    if SwitchesOut(l, s, c) {
      assert Apply(l, s, c).0.table.value[c.op] == Real(l, s, c.op) != s.table.value[c.op];
    } else if (c.DisableUser? || c.DisableInternal?) && c.op < l.size {
      assert Apply(l, s, c).0.table.value == s.table.value;
    }
  }

  // ---- what the application sees

  /** Creating an intercept queue; `created` says whether the first call succeeds. */
  function QueueEvents(l: Layout, s: State, created: bool): seq<Event>
    requires Shaped(l, s) && s.table.Some?
  {
    [Called(s.saved[l.interceptCreate])] + if created then [Called(s.saved[l.interceptRegister])] else []
  }

  function Target(l: Layout, s: State, op: nat, created: bool): seq<Event>
    requires Shaped(l, s) && s.table.Some? && op < l.size
  {
    if op == l.queueCreate then QueueEvents(l, s, created) else [Called(s.saved[op])]
  }

  /** What calling `op` through the table leads to; `muted` when the thread has
      turned the user's callbacks off. */
  function Events(l: Layout, s: State, op: nat, created: bool, muted: bool): seq<Event>
    requires Shaped(l, s) && s.table.Some? && op < l.size
  {
    var fn := s.table.value[op];
    if fn == Wrapper(op) then WrapperEvents(op, Target(l, s, op, created), op in s.user && !muted, op in s.internal)
    else if fn == CreateInterceptQueue then QueueEvents(l, s, created)
    else [Called(fn)]
  }

  lemma TargetEffects(l: Layout, s: State, op: nat, created: bool)
    requires Shaped(l, s) && s.table.Some? && op < l.size
    ensures Effects(Target(l, s, op, created)) == Target(l, s, op, created) &&
              forall e | e in Target(l, s, op, created) :: IsEffect(e)
  {
    OneEffect(Called(s.saved[l.interceptCreate]));
    OneEffect(Called(s.saved[l.interceptRegister]));
    OneEffect(Called(s.saved[op]));
    EffectsConcat([Called(s.saved[l.interceptCreate])], [Called(s.saved[l.interceptRegister])]);
  }

  lemma EventsEffects(l: Layout, s: State, op: nat, created: bool, muted: bool)
    requires Safe(l, s) && s.status != WaitingForApiTable && op < l.size
    ensures Effects(Events(l, s, op, created, muted)) == Target(l, s, op, created)
  {
    TargetEffects(l, s, op, created);
    WrapperTransparent(op, Target(l, s, op, created), op in s.user && !muted, op in s.internal);
    OneEffect(Called(s.saved[op]));
  }

  /** Whatever was called since the capture, creating a queue creates and registers
      an intercept queue and never calls the runtime's own `hsa_queue_create`; any
      other function is called once, as it was captured. */
  lemma QueuesAreIntercepted(l: Layout, cs: seq<Call>, i: nat, op: nat, created: bool, muted: bool)
    requires Orderly(l, cs) && i < |cs| && cs[i].Capture? && cs[i].loaded && op < l.size
    ensures Run(l, cs).table.Some?
    ensures Effects(Events(l, Run(l, cs), op, created, muted))
            == if op != l.queueCreate then [Called(cs[i].raw[op])]
               else [Called(cs[i].raw[l.interceptCreate])] + if created then [Called(cs[i].raw[l.interceptRegister])]
                   else []
    ensures Run(l, cs).table.value[l.queueCreate] in {CreateInterceptQueue, Wrapper(l.queueCreate)}
  {
    RunsAreSafe(l, cs);
    EventsEffects(l, Run(l, cs), op, created, muted);
  }

  /** The user's callback for a function happens exactly when it is enabled and not
      muted. */
  lemma UserIsCalledBack(l: Layout, cs: seq<Call>, op: nat, created: bool, muted: bool, p: Phase)
    requires Orderly(l, cs) && CapturedIn(cs) && op < l.size
    ensures Run(l, cs).table.Some?
    ensures UserCallback(op, p) in Events(l, Run(l, cs), op, created, muted) <==> op in Run(l, cs).user && !muted
  {
    hide Run, CapturedIn, WrapperEvents, Target;
    RunsAreSafe(l, cs);
    var s := Run(l, cs);
    TargetEffects(l, s, op, created);
    WrapperCallsBack(op, Target(l, s, op, created), op in s.user && !muted, op in s.internal, p);
  }

  // ---- packets

  /** What the callbacks of the first phase make of the packets. */
  function Changed(packets: seq<nat>, user: bool, internal: bool, byUser: seq<nat> -> seq<nat>,
                   byInternal: seq<nat> -> seq<nat>): seq<nat> {
    var p := if user then byUser(packets) else packets;
    if internal then byInternal(p) else p
  }

  function SubmitEvents(l: Layout, s: State, packets: seq<nat>, byUser: seq<nat> -> seq<nat>,
                        byInternal: seq<nat> -> seq<nat>,
                        muted: bool): seq<Event> {
    var user, internal := l.size in s.user && !muted, l.size in s.internal;
    WrapperEvents(l.size, [Written(Changed(packets, user, internal, byUser, byInternal))], user, internal)
  }

  /** A submission reaches the writer exactly once, changed by the enabled callbacks
      only, the user's before the internal one. */
  lemma SubmittedOnce(l: Layout, s: State, packets: seq<nat>, byUser: seq<nat> -> seq<nat>,
                      byInternal: seq<nat> -> seq<nat>,
                      muted: bool)
    ensures var p := if l.size in s.user && !muted then byUser(packets) else packets;
            Effects(SubmitEvents(l, s, packets, byUser, byInternal, muted))
            == [Written(if l.size in s.internal then byInternal(p) else p)]
  {
    var user, internal := l.size in s.user && !muted, l.size in s.internal;
    var w := Written(Changed(packets, user, internal, byUser, byInternal));
    OneEffect(w);
    WrapperTransparent(l.size, [w], user, internal);
  }

  // ---- the interceptor

  class HsaRuntimeInterceptor {
    const layout: Layout
    var status: Status
    var runtimeApiTable: array?<Fn>
    var savedRuntimeApiTable: seq<Fn>
    var enabledUserOps: set<nat>
    var enabledInternalOps: set<nat>
    var freezeFlag: bool

    constructor (layout: Layout)
      requires layout.Valid()
      ensures this.layout == layout && runtimeApiTable == null && View() == FRESH
    {
      this.layout := layout;
      status, runtimeApiTable, savedRuntimeApiTable := WaitingForApiTable, null, [];
      enabledUserOps, enabledInternalOps, freezeFlag := {}, {}, false;
    }

    ghost function View(): State
      reads this, runtimeApiTable
    {
      State(status, if runtimeApiTable == null then None
            else Some(runtimeApiTable[..]), savedRuntimeApiTable, enabledUserOps, enabledInternalOps, freezeFlag)
    }

    ghost predicate Valid()
      reads this, runtimeApiTable
    {
      Shaped(layout, View()) && (status == Frozen ==> runtimeApiTable != null)
    }

    /** The loader table comes from a call into the runtime. */
    method CaptureApiTable(table: array<Fn>, loaded: bool) returns (r: Option<Error>)
      requires Valid() && table.Length == layout.size
      modifies this, table
      ensures runtimeApiTable == table && (View(), r) == Apply(layout, old(View()), Capture(old(table[..]), loaded))
    {
      runtimeApiTable := table;
      savedRuntimeApiTable := table[..];
      if !loaded {
        return Some(LoaderFailed);
      }
      status := ApiTableCaptured;
      r := DisableInternalCallback(layout.queueCreate);
    }

    method FreezeRuntimeApiTable()
      requires Valid() && runtimeApiTable != null
      modifies this`status, this`freezeFlag
      ensures View() == Froze(old(View())) && Valid()
    {
      if !freezeFlag {
        freezeFlag := true;
        status := Frozen;
      }
    }

    method SwitchWrapper(op: nat, on: bool)
      requires Valid() && runtimeApiTable != null && op < layout.size
      modifies runtimeApiTable
      ensures View() == Switch(layout, old(View()), op, on)
    {
      if on {
        runtimeApiTable[op] := Wrapper(op);
      } else if op == layout.queueCreate {
        runtimeApiTable[op] := CreateInterceptQueue;
      } else {
        runtimeApiTable[op] := savedRuntimeApiTable[op];
      }
    }

    method EnableOp(op: nat) returns (r: Option<Error>)
      requires Valid()
      modifies runtimeApiTable
      ensures (View(), r) == Enable(layout, old(View()), op)
    {
      if status == WaitingForApiTable {
        return Some(NotCaptured);
      }
      if !(op <= layout.size) {
        return Some(OutOfRange);
      }
      if op != layout.size {
        if status != Frozen {
          SwitchWrapper(op, true);
        } else if runtimeApiTable[op] != Wrapper(op) {
          return Some(WrapperNotInstalled);
        }
      }
      return None;
    }

    method EnableUserCallback(op: nat) returns (r: Option<Error>)
      requires Valid()
      modifies this`enabledUserOps, runtimeApiTable
      ensures (View(), r) == Apply(layout, old(View()), EnableUser(op))
      ensures r.None? <==> old(&& status != WaitingForApiTable && op <= layout.size
                               && (op < layout.size && status == Frozen ==> runtimeApiTable[op] == Wrapper(op)))
      ensures r.None? ==> enabledUserOps == old(enabledUserOps) + {op}
      ensures r.None? && op < layout.size ==> runtimeApiTable != null && runtimeApiTable[op] == Wrapper(op)
    {
      r := EnableOp(op);
      if r.None? {
        enabledUserOps := enabledUserOps + {op};
      }
    }

    method EnableInternalCallback(op: nat) returns (r: Option<Error>)
      requires Valid()
      modifies this`enabledInternalOps, runtimeApiTable
      ensures (View(), r) == Apply(layout, old(View()), EnableInternal(op))
      ensures r.None? <==> old(&& status != WaitingForApiTable && op <= layout.size
                               && (op < layout.size && status == Frozen ==> runtimeApiTable[op] == Wrapper(op)))
      ensures r.None? ==> enabledInternalOps == old(enabledInternalOps) + {op}
      ensures r.None? && op < layout.size ==> runtimeApiTable != null && runtimeApiTable[op] == Wrapper(op)
    {
      r := EnableOp(op);
      if r.None? {
        enabledInternalOps := enabledInternalOps + {op};
      }
    }

    method DisableUserCallback(op: nat) returns (r: Option<Error>)
      requires Valid()
      modifies this`enabledUserOps, runtimeApiTable
      ensures (View(), r) == Apply(layout, old(View()), DisableUser(op))
      ensures r.None? <==> status != WaitingForApiTable && op <= layout.size
      ensures r.None? ==> enabledUserOps == old(enabledUserOps) - {op}
    {
      if status == WaitingForApiTable {
        return Some(NotCaptured);
      }
      if !(op <= layout.size) {
        return Some(OutOfRange);
      }
      enabledUserOps := enabledUserOps - {op};
      if op != layout.size && op !in enabledUserOps {
        SwitchWrapper(op, false);
      }
      return None;
    }

    method DisableInternalCallback(op: nat) returns (r: Option<Error>)
      requires Valid()
      modifies this`enabledInternalOps, runtimeApiTable
      ensures (View(), r) == Apply(layout, old(View()), DisableInternal(op))
      ensures r.None? <==> status != WaitingForApiTable && op <= layout.size
      ensures r.None? ==> enabledInternalOps == old(enabledInternalOps) - {op}
    {
      if status == WaitingForApiTable {
        return Some(NotCaptured);
      }
      if !(op <= layout.size) {
        return Some(OutOfRange);
      }
      enabledInternalOps := enabledInternalOps - {op};
      if op != layout.size && op !in enabledUserOps {
        SwitchWrapper(op, false);
      }
      return None;
    }

    method NewInterceptQueue(created: bool) returns (events: seq<Event>)
      requires Valid() && runtimeApiTable != null
      ensures events == QueueEvents(layout, View(), created)
    {
      events := [Called(savedRuntimeApiTable[layout.interceptCreate])];
      if !created {
        return;
      }
      events := events + [Called(savedRuntimeApiTable[layout.interceptRegister])];
    }

    method CallTarget(op: nat, created: bool) returns (events: seq<Event>)
      requires Valid() && runtimeApiTable != null && op < layout.size
      ensures events == Target(layout, View(), op, created)
    {
      if op == layout.queueCreate {
        events := NewInterceptQueue(created);
      } else {
        events := [Called(savedRuntimeApiTable[op])];
      }
    }

    /** The application calls the function of `op` through the captured table. */
    method InvokeThroughTable(op: nat, created: bool, muted: bool) returns (events: seq<Event>)
      requires Valid() && runtimeApiTable != null && op < layout.size
      modifies this`status, this`freezeFlag
      ensures events == old(Events(layout, View(), op, created, muted)) &&
                View() == Apply(layout, old(View()), Invoke(op)).0
    {
      var fn := runtimeApiTable[op];
      if fn == CreateInterceptQueue {
        events := NewInterceptQueue(created);
        return;
      } else if fn != Wrapper(op) {
        return [Called(fn)];
      }
      FreezeRuntimeApiTable();
      var target := CallTarget(op, created);
      events := CallWrapped(op, target, op in enabledUserOps, op in enabledInternalOps, muted);
    }

    /** The callback of an intercept queue, called with the packets submitted to it. */
    method QueueSubmitWriteInterceptor(packets: seq<nat>, byUser: seq<nat> -> seq<nat>,
                                       byInternal: seq<nat> -> seq<nat>,
                                       muted: bool)
      returns (events: seq<Event>)
      requires Valid() && runtimeApiTable != null
      modifies this`status, this`freezeFlag
      ensures View() == Apply(layout, old(View()), Submit).0
      ensures events == SubmitEvents(layout, old(View()), packets, byUser, byInternal, muted)
    {
      FreezeRuntimeApiTable();
      var user, internal := layout.size in enabledUserOps, layout.size in enabledInternalOps;
      events := [];
      if user || internal {
        var modified := packets;
        if user && !muted {
          events := events + [UserCallback(layout.size, Before)];
          modified := byUser(modified);
        }
        if internal {
          events := events + [InternalCallback(layout.size, Before)];
          modified := byInternal(modified);
        }
        events := events + [Written(modified)];
        if user && !muted {
          events := events + [UserCallback(layout.size, After)];
        }
        if internal {
          events := events + [InternalCallback(layout.size, After)];
        }
      } else {
        events := events + [Written(packets)];
      }
    }

    /** Puts every table back as it was captured. */
    method UninstallApiTables(ghost cs: seq<Call>)
      requires Orderly(layout, cs) && View() == Run(layout, cs)
      modifies runtimeApiTable
      ensures forall i | 0 <= i < |cs| && cs[i].Capture? && cs[i].loaded ::
                runtimeApiTable != null && runtimeApiTable[..] == cs[i].raw
    {
      RunsAreSafe(layout, cs);
      if runtimeApiTable != null {
        var i := 0;
        while i < runtimeApiTable.Length
          modifies runtimeApiTable
          invariant 0 <= i <= runtimeApiTable.Length == |savedRuntimeApiTable|
          invariant runtimeApiTable[..i] == savedRuntimeApiTable[..i]
        {
          runtimeApiTable[i] := savedRuntimeApiTable[i];
          i := i + 1;
        }
      }
    }
  }
}
