/** Wrapping the functions of a HIP dispatch table. */
module HipInterceptor {
  import opened Wrappers
  import opened Intercept

  /** The op ids of the functions of the table: `size` of them from `first` on. */
  datatype Range = Range(first: nat, size: nat) {
    predicate Has(op: nat) {
      first <= op < first + size
    }
  }

  /** `table` is what the runtime calls through, `saved` what it was at capture;
      `flagged` says that the table was frozen once. */
  datatype State = State(status: Status, table: Option<seq<Fn>>, saved: seq<Fn>, user: set<nat>, internal: set<nat>,
                         flagged: bool)

  const FRESH := State(WaitingForApiTable, None, [], {}, {}, false)

  /** Everything that can happen to an interceptor; `Invoke` is the application
      calling a function through its table. */
  datatype Call =
    | Capture(raw: seq<Fn>)
    | Freeze
    | EnableUser(op: nat)
    | DisableUser(op: nat)
    | EnableInternal(op: nat)
    | DisableInternal(op: nat)
    | Invoke(op: nat)

  predicate Shaped(g: Range, s: State) {
    && (s.status == ApiTableCaptured ==> s.table.Some?)
    && (s.table.Some? ==> |s.table.value| == |s.saved| == g.size)
  }

  predicate Sized(g: Range, c: Call) {
    c.Capture? ==> |c.raw| == g.size
  }

  predicate Installed(g: Range, s: State, op: nat) {
    s.table.Some? && g.Has(op) && op - g.first < |s.table.value| && s.table.value[op - g.first] == Wrapper(op)
  }

  /** The table with the wrapper of `op` switched in or out. */
  function Switch(g: Range, s: State, op: nat, on: bool): (r: State)
    requires Shaped(g, s) && s.table.Some? && g.Has(op)
    ensures Shaped(g, r)
  {
    var i := op - g.first;
    s.(table := Some(s.table.value[i := if on then Wrapper(op) else s.saved[i]]))
  }

  function Froze(s: State): State {
    if s.flagged then s else s.(status := Frozen, flagged := true)
  }

  /** The state after a call, and the error it returns. A table frozen before it
      was captured leaves the interceptor without one to switch; nothing is. */
  function Apply(g: Range, s: State, c: Call): (r: (State, Option<Error>))
    requires Shaped(g, s) && Sized(g, c)
    ensures Shaped(g, r.0)
  {
    match c
    case Capture(raw) => (s.(table := Some(raw), saved := raw, status := ApiTableCaptured), None)
    case Freeze => (Froze(s), None)
    case Invoke(op) => (if Installed(g, s, op) then Froze(s) else s, None)
    case EnableUser(op) =>
      var r := Enable(g, s, op);
      if r.1.Some? then r else (r.0.(user := r.0.user + {op}), None)
    case EnableInternal(op) =>
      var r := Enable(g, s, op);
      if r.1.Some? then r else (r.0.(internal := r.0.internal + {op}), None)
    case DisableUser(op) =>
      if s.status == WaitingForApiTable then (s, Some(NotCaptured))
      else if !g.Has(op) then (s, Some(OutOfRange))
      else
        var t := s.(user := s.user - {op});
        if t.status != Frozen && op !in t.internal then (Switch(g, t, op, false), None) else (t, None)
    case DisableInternal(op) =>
      if s.status == WaitingForApiTable then (s, Some(NotCaptured))
      else if !g.Has(op) then (s, Some(OutOfRange))
      else
        var t := s.(internal := s.internal - {op});
        if t.status != Frozen && op !in t.internal then (Switch(g, t, op, false), None) else (t, None)
  }

  function Enable(g: Range, s: State, op: nat): (r: (State, Option<Error>))
    requires Shaped(g, s)
    ensures Shaped(g, r.0)
  {
    if s.status == WaitingForApiTable then (s, Some(NotCaptured))
    else if !g.Has(op) then (s, Some(OutOfRange))
    else if s.status != Frozen then (Switch(g, s, op, true), None)
    else if Installed(g, s, op) then (s, None)
    else (s, Some(WrapperNotInstalled))
  }

  predicate AllSized(g: Range, cs: seq<Call>) {
    forall i | 0 <= i < |cs| :: Sized(g, cs[i])
  }

  /** The state after the calls. */
  function Run(g: Range, cs: seq<Call>): (s: State)
    requires AllSized(g, cs)
    ensures Shaped(g, s)
  {
    if cs == [] then FRESH else Apply(g, Run(g, cs[..|cs| - 1]), cs[|cs| - 1]).0
  }

  predicate CapturedIn(cs: seq<Call>) {
    exists i | 0 <= i < |cs| :: cs[i].Capture?
  }

  /** The table is captured once, before it is frozen, and holds no wrapper then. */
  predicate Orderly(g: Range, cs: seq<Call>) {
    && AllSized(g, cs)
    && (forall i, k | 0 <= i < |cs| && cs[i].Capture? && 0 <= k < |cs[i].raw| :: cs[i].raw[k].Raw?)
    && (forall i | 0 <= i < |cs| && cs[i].Capture? :: !CapturedIn(cs[..i]))
    && (forall i | 0 <= i < |cs| && cs[i].Freeze? :: CapturedIn(cs[..i]))
  }

  lemma OrderlyPrefix(g: Range, cs: seq<Call>, n: nat)
    requires Orderly(g, cs) && n <= |cs|
    ensures Orderly(g, cs[..n])
  {
    assert forall i | 0 <= i < n :: cs[..n][..i] == cs[..i] && cs[..n][i] == cs[i];
  }

  /** Entries are wrappers or originals, and the ops enabled internally have theirs
      installed. */
  ghost predicate Safe(g: Range, s: State) {
    && Shaped(g, s)
    && (s.table.None? <==> s.status == WaitingForApiTable)
    && (s.table.None? ==> s.user == {} == s.internal)
    && (s.table.Some? ==> forall i | 0 <= i < g.size ::
        s.saved[i].Raw? && (s.table.value[i] == s.saved[i] || s.table.value[i] == Wrapper(g.first + i)))
    && (forall op | op in s.internal :: Installed(g, s, op))
    && (forall op | op in s.user :: g.Has(op))
    && (s.status == Frozen <==> s.flagged)
  }

  /** One call keeps a state safe, given a table of originals at capture, and no
      capture later or freezing earlier than the first capture. */
  lemma ApplyKeepsSafe(g: Range, s: State, c: Call)
    requires Safe(g, s) && Sized(g, c)
    requires c.Capture? ==> s.table.None? && forall k | 0 <= k < |c.raw| :: c.raw[k].Raw?
    requires c.Freeze? ==> s.table.Some?
    ensures Safe(g, Apply(g, s, c).0)
    ensures Apply(g, s, c).0.table.Some? <==> s.table.Some? || c.Capture?
    ensures Apply(g, s, c).0.saved == if c.Capture? then c.raw else s.saved
  {
  }

  /** In every orderly run each table entry is the wrapper or the original, every
      op enabled internally has its wrapper installed, and the saved table is the
      one that was captured. */
  lemma {:induction false} RunsAreSafe(g: Range, cs: seq<Call>)
    requires Orderly(g, cs)
    ensures Safe(g, Run(g, cs))
    ensures Run(g, cs).table.Some? <==> CapturedIn(cs)
    ensures forall i | 0 <= i < |cs| && cs[i].Capture? :: Run(g, cs).saved == cs[i].raw
    decreases |cs|
  {
    if cs != [] {
      var n := |cs| - 1;
      OrderlyPrefix(g, cs, n);
      RunsAreSafe(g, cs[..n]);
      CapturedStep(cs);
      ApplyKeepsSafe(g, Run(g, cs[..n]), cs[n]);
      assert forall i | 0 <= i < n :: cs[..n][i] == cs[i];
    }
  }

  lemma RunStep(g: Range, cs: seq<Call>, c: Call)
    requires AllSized(g, cs + [c])
    ensures AllSized(g, cs) && Run(g, cs + [c]) == Apply(g, Run(g, cs), c).0
  {
    assert forall i | 0 <= i < |cs| :: (cs + [c])[i] == cs[i];
    assert (cs + [c])[..|cs|] == cs;
  }

  lemma FrozenStep(g: Range, s: State, c: Call)
    requires Safe(g, s) && s.status == Frozen && Sized(g, c) && !c.Capture?
    ensures Apply(g, s, c).0.table == s.table && Apply(g, s, c).0.status == Frozen
    ensures forall op | op in Apply(g, s, c).0.user - s.user :: Installed(g, s, op)
    ensures forall op | op in Apply(g, s, c).0.internal - s.internal :: Installed(g, s, op)
  {
  }

  lemma Split(cs: seq<Call>, more: seq<Call>)
    requires more != []
    ensures var n := |more| - 1; (cs + more)[..|cs| + n] == cs + more[..n] && cs + more == (cs + more[..n]) + [more[n]]
  {
  }

  /** Nothing changes in the table after freezing, and only ops whose wrapper is
      installed can be enabled from then on. */
  lemma {:induction false} FrozenTableStays(g: Range, cs: seq<Call>, more: seq<Call>)
    requires Orderly(g, cs + more) && Orderly(g, cs) && Run(g, cs).status == Frozen
    ensures Run(g, cs + more).table == Run(g, cs).table && Run(g, cs + more).status == Frozen
    ensures forall op | op in Run(g, cs + more).user - Run(g, cs).user :: Installed(g, Run(g, cs), op)
    ensures forall op | op in Run(g, cs + more).internal - Run(g, cs).internal :: Installed(g, Run(g, cs), op)
    decreases |more|
  {
    hide Run, Safe, Apply, CapturedIn;
    if more == [] {
      assert cs + more == cs;
    } else {
      var n := |more| - 1;
      Split(cs, more);
      OrderlyPrefix(g, cs + more, |cs| + n);
      FrozenTableStays(g, cs, more[..n]);
      RunsAreSafe(g, cs + more[..n]);
      RunStep(g, cs + more[..n], more[n]);
      assert (cs + more)[|cs| + n] == more[n];
      SafeFrozen(g, Run(g, cs + more[..n]));
      FrozenStep(g, Run(g, cs + more[..n]), more[n]);
      NewlyEnabled(g, Run(g, cs), Run(g, cs + more[..n]), Run(g, cs + more));
    }
  }

  lemma NewlyEnabled(g: Range, s: State, t: State, u: State)
    requires s.table == t.table && (forall op | op in t.user - s.user :: Installed(g, s, op)) &&
              (forall op | op in u.user - t.user :: Installed(g, t, op))
    requires (forall op | op in t.internal - s.internal :: Installed(g, s, op)) &&
              forall op | op in u.internal - t.internal :: Installed(g, t, op)
    ensures (forall op | op in u.user - s.user :: Installed(g, s, op)) && forall op | op in u.internal - s.internal ::
              Installed(g, s, op)
  {
    forall op | op in u.user - s.user ensures Installed(g, s, op) {
      assert op in t.user - s.user || op in u.user - t.user;
    }
    forall op | op in u.internal - s.internal ensures Installed(g, s, op) {
      assert op in t.internal - s.internal || op in u.internal - t.internal;
    }
  }

  lemma SafeFrozen(g: Range, s: State)
    requires Safe(g, s) && s.status == Frozen
    ensures s.table.Some?
  {
  }

  // ---- ops enabled by the user

  ghost predicate UserInstalled(g: Range, s: State) {
    forall op | op in s.user :: Installed(g, s, op)
  }

  /** The call takes the wrapper away from an op the user has enabled. */
  predicate Strips(s: State, c: Call) {
    c.DisableInternal? && s.status == ApiTableCaptured && c.op in s.user
  }

  lemma StripsStep(g: Range, s: State, c: Call)
    requires Safe(g, s) && Sized(g, c) && UserInstalled(g, s) && (c.Capture? ==> s.table.None?)
    ensures UserInstalled(g, Apply(g, s, c).0) <==> !Strips(s, c)
  {
    var t := Apply(g, s, c).0;
    if Strips(s, c) {
      assert c.op in t.user && !Installed(g, t, c.op);
    } else {
      assert forall op | op in s.user && op in t.user :: Installed(g, s, op);
    }
  }

  /** No call among the first `n` strips an op. */
  ghost predicate NoneStripped(g: Range, cs: seq<Call>, n: nat)
    requires n <= |cs| && AllSized(g, cs)
  {
    forall i | 0 <= i < n :: !Strips(Run(g, cs[..i]), cs[i])
  }

  lemma StripsAt(g: Range, cs: seq<Call>, n: nat)
    requires Orderly(g, cs) && n < |cs| && UserInstalled(g, Run(g, cs[..n]))
    ensures UserInstalled(g, Run(g, cs[..n + 1])) <==> !Strips(Run(g, cs[..n]), cs[n])
  {
    OrderlyPrefix(g, cs, n);
    RunsAreSafe(g, cs[..n]);
    OrderlyPrefix(g, cs, n + 1);
    assert cs[..n + 1] == cs[..n] + [cs[n]];
    RunStep(g, cs[..n], cs[n]);
    StripsStep(g, Run(g, cs[..n]), cs[n]);
  }

  lemma {:induction false} StaysInstalled(g: Range, cs: seq<Call>, n: nat)
    requires Orderly(g, cs) && n <= |cs| && NoneStripped(g, cs, n)
    ensures UserInstalled(g, Run(g, cs[..n]))
    decreases n
  {
    if n > 0 {
      StaysInstalled(g, cs, n - 1);
      StripsAt(g, cs, n - 1);
    }
  }

  /** Throughout an orderly run every op the user has enabled has its wrapper
      installed, exactly when no call disables such an op internally before the
      table is frozen. */
  lemma UserInstalledIff(g: Range, cs: seq<Call>)
    requires Orderly(g, cs)
    ensures (forall n | 0 <= n <= |cs| :: UserInstalled(g, Run(g, cs[..n]))) <==> NoneStripped(g, cs, |cs|)
  {
    if NoneStripped(g, cs, |cs|) {
      forall n | 0 <= n <= |cs| ensures UserInstalled(g, Run(g, cs[..n])) {
        StaysInstalled(g, cs, n);
      }
    } else {
      var n :| 0 <= n < |cs| && Strips(Run(g, cs[..n]), cs[n]);
      if UserInstalled(g, Run(g, cs[..n])) {
        StripsAt(g, cs, n);
      }
    }
  }

  /** A run that takes the wrapper away from an op the user has enabled. */
  lemma UserStripped(g: Range, raw: seq<Fn>)
    requires |raw| == g.size > 0 && forall k | 0 <= k < |raw| :: raw[k].Raw?
    ensures var cs := [Capture(raw), EnableUser(g.first), DisableInternal(g.first)];
            Orderly(g, cs) && g.first in Run(g, cs).user && !Installed(g, Run(g, cs), g.first)
  {
    var c0 := [Capture(raw)];
    var c1 := c0 + [EnableUser(g.first)];
    RunStep(g, [], c0[0]);
    RunStep(g, c0, EnableUser(g.first));
    RunStep(g, c1, DisableInternal(g.first));
    assert [] + c0 == c0;
    assert c1 + [DisableInternal(g.first)] == [Capture(raw), EnableUser(g.first), DisableInternal(g.first)];
  }

  // ---- freezing

  lemma FlaggedStep(g: Range, s: State, c: Call)
    requires Shaped(g, s) && Sized(g, c) && s.flagged
    ensures Apply(g, s, c).0.flagged && Apply(g, s, c).0.status == if c.Capture? then ApiTableCaptured else s.status
  {
  }

  lemma CapturedStep(cs: seq<Call>)
    requires cs != []
    ensures CapturedIn(cs) <==> CapturedIn(cs[..|cs| - 1]) || cs[|cs| - 1].Capture?
  {
    var n := |cs| - 1;
    assert forall i | 0 <= i < n :: cs[..n][i] == cs[i];
  }

  lemma NeverCaptured()
    ensures !CapturedIn([])
  {
  }

  /** A frozen table stays frozen exactly as long as none is captured again: the
      flag that lets it freeze only once is spent. */
  lemma {:induction false} FrozenUnlessCaptured(g: Range, cs: seq<Call>, more: seq<Call>)
    requires AllSized(g, cs + more) && AllSized(g, cs) && Run(g, cs).flagged && Run(g, cs).status == Frozen
    ensures Run(g, cs + more).flagged
    ensures Run(g, cs + more).status == if CapturedIn(more) then ApiTableCaptured else Frozen
    decreases |more|
  {
    hide Run, Apply, CapturedIn;
    if more == [] {
      NeverCaptured();
      assert cs + more == cs;
    } else {
      var n := |more| - 1;
      Split(cs, more);
      RunStep(g, cs + more[..n], more[n]);
      FrozenUnlessCaptured(g, cs, more[..n]);
      CapturedStep(more);
      assert (cs + more)[|cs| + n] == more[n];
      FlaggedStep(g, Run(g, cs + more[..n]), more[n]);
    }
  }

  // ---- what the application sees

  /** What calling `op` through the table leads to. */
  function Events(g: Range, s: State, op: nat): seq<Event>
    requires Shaped(g, s) && s.table.Some? && g.Has(op)
  {
    var fn := s.table.value[op - g.first];
    if fn == Wrapper(op) then WrapperEvents(op, [Called(s.saved[op - g.first])], op in s.user, op in s.internal)
        else [Called(fn)]
  }

  lemma CapturedAt(cs: seq<Call>, i: nat)
    requires i < |cs| && cs[i].Capture?
    ensures CapturedIn(cs)
  {
  }

  /** Whatever was called before, a function of the runtime that the application
      calls is called once, and the callbacks that happen are those enabled for
      an op whose wrapper is installed. */
  lemma CallsReachTheRuntime(g: Range, cs: seq<Call>, i: nat, op: nat)
    requires Orderly(g, cs) && i < |cs| && cs[i].Capture? && g.Has(op)
    ensures Run(g, cs).table.Some?
    ensures Effects(Events(g, Run(g, cs), op)) == [Called(cs[i].raw[op - g.first])]
    ensures forall p :: InternalCallback(op, p) in Events(g, Run(g, cs), op) <==> op in Run(g, cs).internal
    ensures forall p :: UserCallback(op, p) in Events(g, Run(g, cs), op) <==>
              op in Run(g, cs).user && Installed(g, Run(g, cs), op)
  {
    hide Run, CapturedIn, Orderly, WrapperEvents;
    RunsAreSafe(g, cs);
    assert CapturedIn(cs) by {
      CapturedAt(cs, i);
    }
    var s := Run(g, cs);
    OneEffect(Called(s.saved[op - g.first]));
    WrapperTransparent(op, [Called(s.saved[op - g.first])], op in s.user, op in s.internal);
    forall p {
      WrapperCallsBack(op, [Called(s.saved[op - g.first])], op in s.user, op in s.internal, p);
    }
  }

  // ---- the interceptor

  class HipRuntimeApiInterceptor {
    const range: Range
    var status: Status
    var runtimeApiTable: array?<Fn>
    var savedRuntimeApiTable: seq<Fn>
    var enabledUserOps: set<nat>
    var enabledInternalOps: set<nat>
    var freezeFlag: bool

    constructor (range: Range)
      ensures this.range == range && runtimeApiTable == null && View() == FRESH
    {
      this.range := range;
      status, runtimeApiTable, savedRuntimeApiTable := WaitingForApiTable, null, [];
      enabledUserOps, enabledInternalOps, freezeFlag := {}, {}, false;
    }

    ghost function View(): State
      reads this, runtimeApiTable
    {
      State(status, if runtimeApiTable == null then None
            else Some(runtimeApiTable[..]), savedRuntimeApiTable, enabledUserOps, enabledInternalOps, freezeFlag)
    }

    ghost predicate Valid()
      reads this, runtimeApiTable
    {
      Shaped(range, View())
    }

    method CaptureApiTable(table: array<Fn>)
      requires Valid() && table.Length == range.size
      modifies this
      ensures runtimeApiTable == table && View() == Apply(range, old(View()), Capture(table[..])).0
    {
      runtimeApiTable := table;
      savedRuntimeApiTable := table[..];
      status := ApiTableCaptured;
    }

    method FreezeRuntimeApiTable()
      requires Valid()
      modifies this`status, this`freezeFlag
      ensures View() == Apply(range, old(View()), Call.Freeze).0
    {
      if !freezeFlag {
        freezeFlag := true;
        status := Frozen;
      }
    }

    method SwitchWrapper(i: nat, on: bool)
      requires Valid() && runtimeApiTable != null && i < range.size
      modifies runtimeApiTable
      ensures View() == Switch(range, old(View()), range.first + i, on)
    {
      if on {
        runtimeApiTable[i] := Wrapper(range.first + i);
      } else {
        runtimeApiTable[i] := savedRuntimeApiTable[i];
      }
    }

    /** Switches the wrapper in, or checks it once the table is frozen. */
    method EnableOp(op: nat) returns (r: Option<Error>)
      requires Valid() && (status == Frozen ==> runtimeApiTable != null)
      modifies runtimeApiTable
      ensures (View(), r) == Enable(range, old(View()), op)
    {
      if status == WaitingForApiTable {
        return Some(NotCaptured);
      }
      if !(range.first <= op) {
        return Some(OutOfRange);
      }
      if !(op <= range.first + range.size - 1) {
        return Some(OutOfRange);
      }
      var i := op - range.first;
      if status != Frozen {
        SwitchWrapper(i, true);
      } else if runtimeApiTable[i] != Wrapper(op) {
        return Some(WrapperNotInstalled);
      }
      return None;
    }

    method EnableUserCallback(op: nat) returns (r: Option<Error>)
      requires Valid() && (status == Frozen ==> runtimeApiTable != null)
      modifies this`enabledUserOps, runtimeApiTable
      ensures (View(), r) == Apply(range, old(View()), EnableUser(op))
      ensures r.None? <==> old(&& status != WaitingForApiTable && range.first <= op < range.first + range.size
                               && (status == Frozen ==> runtimeApiTable[op - range.first] == Wrapper(op)))
      ensures r.None? ==> enabledUserOps == old(enabledUserOps) + {op}
      ensures r.None? ==> runtimeApiTable != null && runtimeApiTable[op - range.first] == Wrapper(op)
    {
      r := EnableOp(op);
      if r.None? {
        enabledUserOps := enabledUserOps + {op};
      }
    }

    method EnableInternalCallback(op: nat) returns (r: Option<Error>)
      requires Valid() && (status == Frozen ==> runtimeApiTable != null)
      modifies this`enabledInternalOps, runtimeApiTable
      ensures (View(), r) == Apply(range, old(View()), EnableInternal(op))
      ensures r.None? <==> old(&& status != WaitingForApiTable && range.first <= op < range.first + range.size
                               && (status == Frozen ==> runtimeApiTable[op - range.first] == Wrapper(op)))
      ensures r.None? ==> enabledInternalOps == old(enabledInternalOps) + {op}
      ensures r.None? ==> runtimeApiTable != null && runtimeApiTable[op - range.first] == Wrapper(op)
    {
      r := EnableOp(op);
      if r.None? {
        enabledInternalOps := enabledInternalOps + {op};
      }
    }

    method DisableUserCallback(op: nat) returns (r: Option<Error>)
      requires Valid()
      modifies this`enabledUserOps, runtimeApiTable
      ensures (View(), r) == Apply(range, old(View()), DisableUser(op))
      ensures r.None? <==> status != WaitingForApiTable && range.first <= op < range.first + range.size
      ensures r.None? ==> enabledUserOps == old(enabledUserOps) - {op}
    {
      if status == WaitingForApiTable {
        return Some(NotCaptured);
      }
      if !(range.first <= op) || !(op <= range.first + range.size - 1) {
        return Some(OutOfRange);
      }
      enabledUserOps := enabledUserOps - {op};
      if status != Frozen && op !in enabledInternalOps {
        SwitchWrapper(op - range.first, false);
      }
      return None;
    }

    method DisableInternalCallback(op: nat) returns (r: Option<Error>)
      requires Valid()
      modifies this`enabledInternalOps, runtimeApiTable
      ensures (View(), r) == Apply(range, old(View()), DisableInternal(op))
      ensures r.None? <==> status != WaitingForApiTable && range.first <= op < range.first + range.size
      ensures r.None? ==> enabledInternalOps == old(enabledInternalOps) - {op}
    {
      if status == WaitingForApiTable {
        return Some(NotCaptured);
      }
      if !(range.first <= op) || !(op <= range.first + range.size - 1) {
        return Some(OutOfRange);
      }
      enabledInternalOps := enabledInternalOps - {op};
      if status != Frozen && op !in enabledInternalOps {
        SwitchWrapper(op - range.first, false);
      }
      return None;
    }

    /** The application calls the function of `op` through the captured table. */
    method InvokeThroughTable(op: nat) returns (events: seq<Event>)
      requires Valid() && runtimeApiTable != null && range.Has(op)
      modifies this`status, this`freezeFlag
      ensures events == old(Events(range, View(), op)) && View() == Apply(range, old(View()), Invoke(op)).0
    {
      var fn := runtimeApiTable[op - range.first];
      if fn != Wrapper(op) {
        return [Called(fn)];
      }
      FreezeRuntimeApiTable();
      events := CallWrapped(op, [Called(savedRuntimeApiTable[op - range.first])], op in enabledUserOps,
                            op in enabledInternalOps, false);
    }

    /** Destruction puts the table back as it was at the one capture of the run `cs`
        that led here. */
    method Destroy(ghost cs: seq<Call>)
      requires Orderly(range, cs) && View() == Run(range, cs)
      modifies this`savedRuntimeApiTable, runtimeApiTable
      ensures runtimeApiTable != null <==> CapturedIn(cs)
      ensures forall i | 0 <= i < |cs| && cs[i].Capture? :: runtimeApiTable[..] == cs[i].raw
      ensures savedRuntimeApiTable == []
    {
      RunsAreSafe(range, cs);
      if runtimeApiTable != null {
        var i := 0;
        while i < runtimeApiTable.Length
          modifies runtimeApiTable
          invariant 0 <= i <= runtimeApiTable.Length == |savedRuntimeApiTable|
          invariant runtimeApiTable[..i] == savedRuntimeApiTable[..i]
        {
          runtimeApiTable[i] := savedRuntimeApiTable[i];
          i := i + 1;
        }
      }
      savedRuntimeApiTable := [];
    }
  }
}
