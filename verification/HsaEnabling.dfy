/** What each call of the HSA interceptor changes, and who is called back after a run. */
module HsaEnabling {
  import opened Wrappers
  import opened Intercept
  import opened HsaInterceptor

  // ---- one more call

  /** The table is captured, the op is one, and if its wrapper can no longer be put in, it
      is there. */
  predicate CanEnable(l: Layout, s: State, op: nat) {
    && s.status != WaitingForApiTable && op <= l.size
    && (op < l.size && s.status == Frozen ==>
          s.table.Some? && op < |s.table.value| && s.table.value[op] == Wrapper(op))
  }

  /** The call that enables or disables an op, for the user or internally. */
  function On(user: bool, op: nat): Call {
    if user then EnableUser(op) else EnableInternal(op)
  }

  function Off(user: bool, op: nat): Call {
    if user then DisableUser(op) else DisableInternal(op)
  }

  function Ops(s: State, user: bool): set<nat> {
    if user then s.user else s.internal
  }

  lemma BeforeLast(l: Layout, cs: seq<Call>, c: Call)
    requires Orderly(l, cs + [c])
    ensures Orderly(l, cs) && Safe(l, Run(l, cs)) && Sized(l, c)
    ensures Run(l, cs + [c]) == Apply(l, Run(l, cs), c).0
    ensures c.Capture? ==> Run(l, cs).status == WaitingForApiTable && forall k | 0 <= k < |c.raw| :: c.raw[k].Raw?
  {
    hide Run, Safe, Apply;
    var all := cs + [c];
    assert all[..|cs|] == cs && all[|cs|] == c;
    OrderlyPrefix(l, all, |cs|);
    RunsAreSafe(l, cs);
    RunStep(l, cs, c);
  }

  /** Enabling adds the op and puts its wrapper in, if it can be enabled, and changes
      nothing else. */
  lemma EnablingExact(l: Layout, cs: seq<Call>, user: bool, op: nat)
    requires Orderly(l, cs + [On(user, op)])
    ensures AllSized(l, cs)
    ensures var s, t := Run(l, cs), Run(l, cs + [On(user, op)]);
            if CanEnable(l, s, op) then
              && t.user == (if user then s.user + {op} else s.user)
              && t.internal == (if user then s.internal else s.internal + {op})
              && t.status == s.status && t.saved == s.saved && s.table.Some? && t.table.Some?
              && t.table.value == if op < l.size then s.table.value[op := Wrapper(op)] else s.table.value
            else t == s
    ensures Apply(l, Run(l, cs), On(user, op)).1 ==
              if Run(l, cs).status == WaitingForApiTable then Some(NotCaptured)
              else if op > l.size then Some(OutOfRange)
              else if !CanEnable(l, Run(l, cs), op) then Some(WrapperNotInstalled)
              else None
  {
    hide Run;
    BeforeLast(l, cs, On(user, op));
    var s := Run(l, cs);
    if CanEnable(l, s, op) && op < l.size && s.status == Frozen {
      assert s.table.value[op := Wrapper(op)] == s.table.value;
    }
  }

  /** Disabling removes the op, if there is one and the table is captured. It takes the
      wrapper out unless the user still has the function enabled. */
  lemma DisablingExact(l: Layout, cs: seq<Call>, user: bool, op: nat)
    requires Orderly(l, cs + [Off(user, op)])
    ensures AllSized(l, cs)
    ensures var s, t := Run(l, cs), Run(l, cs + [Off(user, op)]);
            if s.status != WaitingForApiTable && op <= l.size then
              && t.user == (if user then s.user - {op} else s.user)
              && t.internal == (if user then s.internal else s.internal - {op})
              && t.status == s.status && t.saved == s.saved && s.table.Some? && t.table.Some?
              && t.table.value == if op < l.size && (user || op !in s.user) then
                                    s.table.value[op := if op == l.queueCreate then CreateInterceptQueue
                                                        else s.saved[op]]
                                  else s.table.value
            else t == s
    ensures Apply(l, Run(l, cs), Off(user, op)).1 ==
              if Run(l, cs).status == WaitingForApiTable then Some(NotCaptured)
              else if op > l.size then Some(OutOfRange)
              else None
  {
    hide Run;
    BeforeLast(l, cs, Off(user, op));
  }

  /** Capturing takes the table over as it is, with queue creation intercepted, if the
      runtime hands out its loader table. */
  lemma CapturingExact(l: Layout, cs: seq<Call>, raw: seq<Fn>, loaded: bool)
    requires Orderly(l, cs + [Capture(raw, loaded)])
    ensures var t := Run(l, cs + [Capture(raw, loaded)]);
            && t.saved == raw && t.user == {} == t.internal && !t.flagged
            && t.status == (if loaded then ApiTableCaptured else WaitingForApiTable)
            && t.table == Some(if loaded then raw[l.queueCreate := CreateInterceptQueue] else raw)
    ensures AllSized(l, cs)
    ensures Apply(l, Run(l, cs), Capture(raw, loaded)).1 == if loaded then None else Some(LoaderFailed)
  {
    hide Run;
    BeforeLast(l, cs, Capture(raw, loaded));
  }

  /** Freezing, a packet submission and a call that meets its wrapper freeze the table;
      other calls of the application change nothing. */
  lemma FreezingExact(l: Layout, cs: seq<Call>, c: Call)
    requires Orderly(l, cs + [c]) && (c.Freeze? || c.Submit? || c.Invoke?)
    ensures AllSized(l, cs)
    ensures var s, t := Run(l, cs), Run(l, cs + [c]);
            && t.table == s.table && t.saved == s.saved && t.user == s.user && t.internal == s.internal
            && t.status == if c.Invoke? && !(s.table.Some? && c.op < |s.table.value| &&
                                             s.table.value[c.op] == Wrapper(c.op))
                           then s.status else Frozen
  {
    hide Run;
    BeforeLast(l, cs, c);
  }

  // ---- whole runs

  lemma OpsStep(l: Layout, cs: seq<Call>, c: Call, user: bool, op: nat)
    requires Orderly(l, cs + [c])
    ensures AllSized(l, cs)
    ensures op in Ops(Run(l, cs + [c]), user) <==>
              (c == On(user, op) && CanEnable(l, Run(l, cs), op)) || (op in Ops(Run(l, cs), user) && c != Off(user, op))
  {
    hide Run;
    BeforeLast(l, cs, c);
  }

  /** Enabled at `i` and not disabled since. */
  ghost predicate EnabledSince(l: Layout, cs: seq<Call>, i: nat, user: bool, op: nat)
    requires l.Valid() && AllSized(l, cs)
  {
    && i < |cs| && cs[i] == On(user, op) && CanEnable(l, Run(l, cs[..i]), op)
    && forall j | i < j < |cs| :: cs[j] != Off(user, op)
  }

  ghost predicate Enabled(l: Layout, cs: seq<Call>, user: bool, op: nat)
    requires l.Valid() && AllSized(l, cs)
  {
    exists i: nat :: EnabledSince(l, cs, i, user, op)
  }

  /** After any orderly run an op is enabled exactly when it was once and was not disabled
      since then, by the same side. */
  lemma {:induction false} EnabledIff(l: Layout, cs: seq<Call>, user: bool, op: nat)
    requires Orderly(l, cs)
    ensures op in Ops(Run(l, cs), user) <==> Enabled(l, cs, user, op)
    decreases |cs|
  {
    hide Orderly, CanEnable;
    OrderlySized(l, cs);
    if cs == [] {
      assert Run(l, cs) == FRESH;
    } else {
      var n := |cs| - 1;
      var c := cs[n];
      assert cs == cs[..n] + [c];
      OrderlyPrefix(l, cs, n);
      OrderlySized(l, cs[..n]);
      EnabledIff(l, cs[..n], user, op);
      OpsStep(l, cs[..n], c, user, op);
      EnabledStep(l, cs, user, op);
    }
  }

  lemma OrderlySized(l: Layout, cs: seq<Call>)
    requires Orderly(l, cs)
    ensures l.Valid() && AllSized(l, cs)
  {
  }

  lemma EnabledStep(l: Layout, cs: seq<Call>, user: bool, op: nat)
    requires cs != [] && l.Valid() && AllSized(l, cs) && AllSized(l, cs[..|cs| - 1])
    ensures var n := |cs| - 1;
            Enabled(l, cs, user, op) <==>
              || (cs[n] == On(user, op) && CanEnable(l, Run(l, cs[..n]), op))
              || (Enabled(l, cs[..n], user, op) && cs[n] != Off(user, op))
  {
    hide Run, CanEnable;
    var n := |cs| - 1;
    assert forall i | 0 <= i < n :: cs[..n][..i] == cs[..i] && cs[..n][i] == cs[i];
    if cs[n] == On(user, op) && CanEnable(l, Run(l, cs[..n]), op) {
      assert EnabledSince(l, cs, n, user, op);
    }
    if Enabled(l, cs[..n], user, op) && cs[n] != Off(user, op) {
      var i: nat :| EnabledSince(l, cs[..n], i, user, op);
      assert EnabledSince(l, cs, i, user, op);
    }
    if i: nat :| EnabledSince(l, cs, i, user, op) {
      if i < n {
        assert EnabledSince(l, cs[..n], i, user, op);
      }
    }
  }

  /** A call of the application makes the user's callbacks exactly when the op is enabled
      and not muted, and the internal ones exactly when it is enabled internally and still
      has its wrapper. */
  lemma CalledBackIff(l: Layout, cs: seq<Call>, op: nat, created: bool, muted: bool, p: Phase)
    requires Orderly(l, cs) && CapturedIn(cs) && op < l.size
    ensures Run(l, cs).table.Some?
    ensures UserCallback(op, p) in Events(l, Run(l, cs), op, created, muted) <==> Enabled(l, cs, true, op) && !muted
    ensures InternalCallback(op, p) in Events(l, Run(l, cs), op, created, muted) <==>
              Enabled(l, cs, false, op) && Run(l, cs).table.value[op] == Wrapper(op)
  {
    hide Run, CapturedIn, WrapperEvents, Target, Enabled;
    RunsAreSafe(l, cs);
    var s := Run(l, cs);
    EnabledIff(l, cs, true, op);
    EnabledIff(l, cs, false, op);
    TargetEffects(l, s, op, created);
    WrapperCallsBack(op, Target(l, s, op, created), op in s.user && !muted, op in s.internal, p);
  }

  /** The same for a packet submission, which needs no wrapper. */
  lemma SubmissionCallsBackIff(l: Layout, cs: seq<Call>, packets: seq<nat>, byUser: seq<nat> -> seq<nat>,
                               byInternal: seq<nat> -> seq<nat>, muted: bool, p: Phase)
    requires Orderly(l, cs)
    ensures var es := SubmitEvents(l, Run(l, cs), packets, byUser, byInternal, muted);
            && (UserCallback(l.size, p) in es <==> Enabled(l, cs, true, l.size) && !muted)
            && (InternalCallback(l.size, p) in es <==> Enabled(l, cs, false, l.size))
  {
    hide Run, WrapperEvents, Enabled;
    var s := Run(l, cs);
    EnabledIff(l, cs, true, l.size);
    EnabledIff(l, cs, false, l.size);
    var user, internal := l.size in s.user && !muted, l.size in s.internal;
    WrapperCallsBack(l.size, [Written(Changed(packets, user, internal, byUser, byInternal))], user, internal, p);
  }
}
