/** What the two API interceptors share. */
module Intercept {
  /** A function pointer in an API table. */
  datatype Fn = Raw(id: nat) | Wrapper(op: nat) | CreateInterceptQueue

  datatype Status = WaitingForApiTable | ApiTableCaptured | Frozen

  datatype Error = NotCaptured | OutOfRange | WrapperNotInstalled | LoaderFailed

  datatype Phase = Before | After

  /** What a call of the application or a packet submission leads to. */
  datatype Event =
    | UserCallback(op: nat, phase: Phase)
    | InternalCallback(op: nat, phase: Phase)
    | Called(fn: Fn)
    | Written(packets: seq<nat>)

  function Callbacks(op: nat, phase: Phase, user: bool, internal: bool): seq<Event> {
    (if user then [UserCallback(op, phase)] else []) + (if internal then [InternalCallback(op, phase)] else [])
  }

  /** Callbacks around the events of the wrapped function. */
  function WrapperEvents(op: nat, target: seq<Event>, user: bool, internal: bool): seq<Event> {
    Callbacks(op, Before, user, internal) + target + Callbacks(op, After, user, internal)
  }

  predicate IsEffect(e: Event) {
    e.Called? || e.Written?
  }

  /** The events that are not callbacks. */
  function Effects(es: seq<Event>): seq<Event> {
    if es == [] then [] else (if IsEffect(es[0]) then [es[0]] else []) + Effects(es[1..])
  }

  lemma {:induction false} EffectsConcat(es: seq<Event>, fs: seq<Event>)
    ensures Effects(es + fs) == Effects(es) + Effects(fs)
  {
    if es == [] {
      assert es + fs == fs;
    } else {
      var first := if IsEffect(es[0]) then [es[0]] else [];
      assert (es + fs)[1..] == es[1..] + fs && (es + fs)[0] == es[0];
      EffectsConcat(es[1..], fs);
      assert first + (Effects(es[1..]) + Effects(fs)) == first + Effects(es[1..]) + Effects(fs);
    }
  }

  lemma NoEffectsInCallbacks(op: nat, phase: Phase, user: bool, internal: bool)
    ensures Effects(Callbacks(op, phase, user, internal)) == []
  {
    var es := Callbacks(op, phase, user, internal);
    assert |es| > 1 ==> Effects(es[1..]) == [] by {
      assert |es| > 1 ==> es[1..][1..] == [];
    }
  }

  lemma OneEffect(e: Event)
    requires IsEffect(e)
    ensures Effects([e]) == [e]
  {
  }

  /** A wrapper does what it wraps exactly once. */
  lemma WrapperTransparent(op: nat, target: seq<Event>, user: bool, internal: bool)
    ensures Effects(WrapperEvents(op, target, user, internal)) == Effects(target)
  {
    hide Effects, Callbacks;
    var b, a := Callbacks(op, Before, user, internal), Callbacks(op, After, user, internal);
    NoEffectsInCallbacks(op, Before, user, internal);
    NoEffectsInCallbacks(op, After, user, internal);
    EffectsConcat(b + target, a);
    EffectsConcat(b, target);
  }

  /** It makes the callbacks of those who enabled the op. */
  lemma WrapperCallsBack(op: nat, target: seq<Event>, user: bool, internal: bool, p: Phase)
    requires forall e | e in target :: IsEffect(e)
    ensures UserCallback(op, p) in WrapperEvents(op, target, user, internal) <==> user
    ensures InternalCallback(op, p) in WrapperEvents(op, target, user, internal) <==> internal
  {
    var b, a := Callbacks(op, Before, user, internal), Callbacks(op, After, user, internal);
    assert forall e | !IsEffect(e) :: e in b + target + a <==> e in b || e in a;
  }

  /** Each callback is made once and for the op of the wrapper; of two in the same phase
      the user's comes first. */
  lemma CallbacksOnce(op: nat, target: seq<Event>, user: bool, internal: bool, i: nat, j: nat)
    requires forall e | e in target :: IsEffect(e)
    requires var es := WrapperEvents(op, target, user, internal);
             i < j < |es| && !IsEffect(es[i]) && !IsEffect(es[j])
    ensures var es := WrapperEvents(op, target, user, internal);
            && es[i] != es[j] && es[i].op == op == es[j].op
            && (es[i].phase == es[j].phase ==> es[i].UserCallback? && es[j].InternalCallback?)
  {
    var b, a := Callbacks(op, Before, user, internal), Callbacks(op, After, user, internal);
    var es := WrapperEvents(op, target, user, internal);
    assert |es| == |b| + |target| + |a|;
    assert forall k | 0 <= k < |b| :: es[k] == b[k];
    assert forall k | 0 <= k < |target| :: es[|b| + k] == target[k] && target[k] in target;
    assert forall k | 0 <= k < |a| :: es[|b| + |target| + k] == a[k];
  }

  /** Callbacks of the first phase come before what is wrapped, the others after it. */
  lemma WrapperOrder(op: nat, target: seq<Event>, user: bool, internal: bool, i: nat, j: nat)
    requires i < j < |WrapperEvents(op, target, user, internal)| && forall e | e in target :: IsEffect(e)
    ensures var es := WrapperEvents(op, target, user, internal);
            && (IsEffect(es[i]) ==> IsEffect(es[j]) || es[j].phase == After)
            && (IsEffect(es[j]) ==> IsEffect(es[i]) || es[i].phase == Before)
  {
  }

  /** The body of a wrapper, after it has frozen the table. */
  method CallWrapped(op: nat, target: seq<Event>, user: bool, internal: bool, muted: bool) returns (events: seq<Event>)
    ensures events == WrapperEvents(op, target, user && !muted, internal)
  {
    if user || internal {
      events := [];
      if user && !muted {
        events := events + [UserCallback(op, Before)];
      }
      if internal {
        events := events + [InternalCallback(op, Before)];
      }
      events := events + target;
      if user && !muted {
        events := events + [UserCallback(op, After)];
      }
      if internal {
        events := events + [InternalCallback(op, After)];
      }
    } else {
      events := target;
    }
  }
}
