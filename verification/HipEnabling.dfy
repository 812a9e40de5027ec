/** What each call of a HIP interceptor changes, and who is called back after a run. */
module HipEnabling {
  import opened Wrappers
  import opened Intercept
  import opened HipInterceptor

  // ---- one more call

  /** The table is captured, the op is one of its range, and if its wrapper can no longer
      be put in, it is there. */
  predicate CanEnable(g: Range, s: State, op: nat) {
    && s.status != WaitingForApiTable && g.first <= op < g.first + g.size
    && (s.status == Frozen ==>
          s.table.Some? && op - g.first < |s.table.value| && s.table.value[op - g.first] == Wrapper(op))
  }

  /** The call that enables or disables an op, for the user or internally. */
  function On(user: bool, op: nat): Call {
    if user then EnableUser(op) else EnableInternal(op)
  }

  function Off(user: bool, op: nat): Call {
    if user then DisableUser(op) else DisableInternal(op)
  }

  function Ops(s: State, user: bool): set<nat> {
    if user then s.user else s.internal
  }

  lemma BeforeLast(g: Range, cs: seq<Call>, c: Call)
    requires Orderly(g, cs + [c])
    ensures Orderly(g, cs) && Safe(g, Run(g, cs)) && Sized(g, c)
    ensures Run(g, cs + [c]) == Apply(g, Run(g, cs), c).0
    ensures c.Capture? ==> Run(g, cs).table.None?
  {
    hide Run, Safe, Apply;
    var all := cs + [c];
    assert all[..|cs|] == cs && all[|cs|] == c;
    OrderlyPrefix(g, all, |cs|);
    RunsAreSafe(g, cs);
    RunStep(g, cs, c);
  }

  /** Enabling adds the op and puts its wrapper in, if it can be enabled, and changes
      nothing else. */
  lemma EnablingExact(g: Range, cs: seq<Call>, user: bool, op: nat)
    requires Orderly(g, cs + [On(user, op)])
    ensures AllSized(g, cs)
    ensures var s, t := Run(g, cs), Run(g, cs + [On(user, op)]);
            if CanEnable(g, s, op) then
              && t.user == (if user then s.user + {op} else s.user)
              && t.internal == (if user then s.internal else s.internal + {op})
              && t.status == s.status && t.saved == s.saved && s.table.Some? && t.table.Some?
              && t.table.value == s.table.value[op - g.first := Wrapper(op)]
            else t == s
    ensures Apply(g, Run(g, cs), On(user, op)).1 ==
              if Run(g, cs).status == WaitingForApiTable then Some(NotCaptured)
              else if !(g.first <= op < g.first + g.size) then Some(OutOfRange)
              else if !CanEnable(g, Run(g, cs), op) then Some(WrapperNotInstalled)
              else None
  {
    hide Run;
    BeforeLast(g, cs, On(user, op));
    var s := Run(g, cs);
    if CanEnable(g, s, op) && s.status == Frozen {
      assert s.table.value[op - g.first := Wrapper(op)] == s.table.value;
    }
  }

  /** Disabling removes the op, if it is in range and the table is captured. Before
      freezing it takes the wrapper out, unless the op is enabled internally after it. */
  lemma DisablingExact(g: Range, cs: seq<Call>, user: bool, op: nat)
    requires Orderly(g, cs + [Off(user, op)])
    ensures AllSized(g, cs)
    ensures var s, t := Run(g, cs), Run(g, cs + [Off(user, op)]);
            if s.status != WaitingForApiTable && g.first <= op < g.first + g.size then
              && t.user == (if user then s.user - {op} else s.user)
              && t.internal == (if user then s.internal else s.internal - {op})
              && t.status == s.status && t.saved == s.saved && s.table.Some? && t.table.Some?
              && t.table.value == if s.status != Frozen && (user ==> op !in s.internal) then
                                    s.table.value[op - g.first := s.saved[op - g.first]]
                                  else s.table.value
            else t == s
    ensures Apply(g, Run(g, cs), Off(user, op)).1 ==
              if Run(g, cs).status == WaitingForApiTable then Some(NotCaptured)
              else if !(g.first <= op < g.first + g.size) then Some(OutOfRange)
              else None
  {
    hide Run;
    BeforeLast(g, cs, Off(user, op));
  }

  lemma CapturingExact(g: Range, cs: seq<Call>, raw: seq<Fn>)
    requires Orderly(g, cs + [Capture(raw)])
    ensures Run(g, cs + [Capture(raw)]) == State(ApiTableCaptured, Some(raw), raw, {}, {}, false)
  {
    hide Run;
    BeforeLast(g, cs, Capture(raw));
  }

  /** Freezing and a call that meets its wrapper freeze the table; other calls of the
      application change nothing. */
  lemma FreezingExact(g: Range, cs: seq<Call>, c: Call)
    requires Orderly(g, cs + [c]) && (c.Freeze? || c.Invoke?)
    ensures AllSized(g, cs)
    ensures var s, t := Run(g, cs), Run(g, cs + [c]);
            && t.table == s.table && t.saved == s.saved && t.user == s.user && t.internal == s.internal
            && t.status == if c.Invoke? && !(s.table.Some? && 0 <= c.op - g.first < |s.table.value| &&
                                             s.table.value[c.op - g.first] == Wrapper(c.op))
                           then s.status else Frozen
  {
    hide Run;
    BeforeLast(g, cs, c);
  }

  // ---- whole runs

  lemma OpsStep(g: Range, cs: seq<Call>, c: Call, user: bool, op: nat)
    requires Orderly(g, cs + [c])
    ensures AllSized(g, cs)
    ensures op in Ops(Run(g, cs + [c]), user) <==>
              (c == On(user, op) && CanEnable(g, Run(g, cs), op)) || (op in Ops(Run(g, cs), user) && c != Off(user, op))
  {
    hide Run;
    BeforeLast(g, cs, c);
  }

  /** Enabled at `i` and not disabled since. */
  ghost predicate EnabledSince(g: Range, cs: seq<Call>, i: nat, user: bool, op: nat)
    requires AllSized(g, cs)
  {
    && i < |cs| && cs[i] == On(user, op) && CanEnable(g, Run(g, cs[..i]), op)
    && forall j | i < j < |cs| :: cs[j] != Off(user, op)
  }

  ghost predicate Enabled(g: Range, cs: seq<Call>, user: bool, op: nat)
    requires AllSized(g, cs)
  {
    exists i: nat :: EnabledSince(g, cs, i, user, op)
  }

  /** After any orderly run an op is enabled exactly when it was once and was not disabled
      since then, by the same side. */
  lemma {:induction false} EnabledIff(g: Range, cs: seq<Call>, user: bool, op: nat)
    requires Orderly(g, cs)
    ensures op in Ops(Run(g, cs), user) <==> Enabled(g, cs, user, op)
    decreases |cs|
  {
    hide Orderly, CanEnable;
    OrderlySized(g, cs);
    if cs == [] {
      assert Run(g, cs) == FRESH;
    } else {
      var n := |cs| - 1;
      var c := cs[n];
      assert cs == cs[..n] + [c];
      OrderlyPrefix(g, cs, n);
      OrderlySized(g, cs[..n]);
      EnabledIff(g, cs[..n], user, op);
      OpsStep(g, cs[..n], c, user, op);
      EnabledStep(g, cs, user, op);
    }
  }

  lemma OrderlySized(g: Range, cs: seq<Call>)
    requires Orderly(g, cs)
    ensures AllSized(g, cs)
  {
  }

  lemma EnabledStep(g: Range, cs: seq<Call>, user: bool, op: nat)
    requires cs != [] && AllSized(g, cs) && AllSized(g, cs[..|cs| - 1])
    ensures var n := |cs| - 1;
            Enabled(g, cs, user, op) <==>
              || (cs[n] == On(user, op) && CanEnable(g, Run(g, cs[..n]), op))
              || (Enabled(g, cs[..n], user, op) && cs[n] != Off(user, op))
  {
    hide Run, CanEnable;
    var n := |cs| - 1;
    assert forall i | 0 <= i < n :: cs[..n][..i] == cs[..i] && cs[..n][i] == cs[i];
    if cs[n] == On(user, op) && CanEnable(g, Run(g, cs[..n]), op) {
      assert EnabledSince(g, cs, n, user, op);
    }
    if Enabled(g, cs[..n], user, op) && cs[n] != Off(user, op) {
      var i: nat :| EnabledSince(g, cs[..n], i, user, op);
      assert EnabledSince(g, cs, i, user, op);
    }
    if i: nat :| EnabledSince(g, cs, i, user, op) {
      if i < n {
        assert EnabledSince(g, cs[..n], i, user, op);
      }
    }
  }

  /** A call of the application makes the internal callbacks exactly when the op is enabled
      internally, and the user's exactly when it is enabled and still has its wrapper. */
  lemma CalledBackIff(g: Range, cs: seq<Call>, i: nat, op: nat, p: Phase)
    requires Orderly(g, cs) && i < |cs| && cs[i].Capture? && g.Has(op)
    ensures Run(g, cs).table.Some?
    ensures InternalCallback(op, p) in Events(g, Run(g, cs), op) <==> Enabled(g, cs, false, op)
    ensures UserCallback(op, p) in Events(g, Run(g, cs), op) <==>
              Enabled(g, cs, true, op) && Run(g, cs).table.value[op - g.first] == Wrapper(op)
  {
    hide Run, Orderly, Events, Enabled;
    OrderlySized(g, cs);
    CallsReachTheRuntime(g, cs, i, op);
    EnabledIff(g, cs, true, op);
    EnabledIff(g, cs, false, op);
  }
}
