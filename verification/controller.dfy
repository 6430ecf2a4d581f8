/**
  The Flask controller's single animation slot (app.py). The module-level
  Strip1ThreadID records the ident of the one animation thread the
  controller knows about, or -1. A thread is found again by scanning the
  live threads for that ident, so once the recorded thread dies on its own
  the id goes stale and nothing ever clears it.
 */
module Controller {
  import opened Common
  import opened LightThread

  /** Thread.ident of an animation thread. */
  type Tid = nat

  /** The controller's world: the recorded id (None stands for -1), the
      animation threads still alive, and the flags of every thread ever
      started. */
  datatype AppState = AppState(slot: Option<Tid>, live: set<Tid>, flags: map<Tid, Flags>)

  /** Program start: Strip1ThreadID = -1 and no animation thread. */
  const Init := AppState(None, {}, map[])

  /** Every live thread has its two flags. */
  predicate Valid(s: AppState) {
    s.live <= s.flags.Keys
  }

  /** The slot holds an id whose thread is gone. */
  predicate Stale(s: AppState) {
    s.slot.Some? && s.slot.value !in s.live
  }

  /** getStrip1Thread: the live thread whose ident is the recorded id. */
  function GetThread(s: AppState): (t: Option<Tid>)
    ensures t.Some? <==> s.slot.Some? && !Stale(s)
    ensures t.Some? ==> t == s.slot && t.value in s.live
  {
    if s.slot.Some? && s.slot.value in s.live then s.slot else None
  }

  /** killStrip1Thread: a live recorded thread is paused, stopped and joined,
      and the slot is reset to -1. Without one, nothing happens; in
      particular a stale id stays recorded. */
  function Kill(s: AppState): (r: AppState)
    requires Valid(s)
    ensures Valid(r)
    ensures GetThread(s).None? ==> r == s
    ensures GetThread(s).Some? ==>
              var t := s.slot.value;
              && r.slot.None? && r.live == s.live - {t}
              && r.flags.Keys == s.flags.Keys
              && Stopped(r.flags[t]) && Paused(r.flags[t])
              && forall u :: u in s.flags && u != t ==> r.flags[u] == s.flags[u]
  {
    match GetThread(s)
    case None => s
    case Some(t) => AppState(None, s.live - {t}, s.flags[t := Stop(Pause(s.flags[t]))])
  }

  /** startStrip1Thread: with the slot at -1, a new thread newId starts
      with cleared flags and its ident is recorded; otherwise nothing
      starts and nothing changes. The second component is the started
      thread. */
  function Start(s: AppState, newId: Tid): (r: (AppState, Option<Tid>))
    requires newId !in s.live
    ensures r.1.Some? <==> s.slot.None?
    ensures s.slot.Some? ==> r.0 == s
    ensures s.slot.None? ==>
              && r.1 == Some(newId) && r.0.slot == Some(newId)
              && r.0.live == s.live + {newId}
              && r.0.flags.Keys == s.flags.Keys + {newId}
              && !Stopped(r.0.flags[newId]) && !Paused(r.0.flags[newId])
              && forall u :: u in s.flags && u != newId ==> r.0.flags[u] == s.flags[u]
  {
    if s.slot.None? then
      (AppState(Some(newId), s.live + {newId}, s.flags[newId := New()]), Some(newId))
    else
      (s, None)
  }

  /** restartStrip1Thread: kill, then start. The kill joins the old thread
      before the new one starts, so the new thread may be given the joined
      thread's ident; it only differs from the threads still alive then. */
  function Restart(s: AppState, newId: Tid): (r: (AppState, Option<Tid>))
    requires Valid(s) && newId !in Kill(s).live
    ensures Valid(r.0)
  {
    Start(Kill(s), newId)
  }

  /** From an empty slot, or one whose thread is alive, a restart ends with
      the new thread recorded and running and the old one stopped. */
  lemma RestartReplaces(s: AppState, newId: Tid)
    requires Valid(s) && newId !in Kill(s).live && !Stale(s)
    ensures var r := Restart(s, newId);
            && r.1 == Some(newId) && r.0.slot == Some(newId)
            && newId in r.0.live && !Stopped(r.0.flags[newId])
            && (s.slot.Some? && s.slot.value != newId ==>
                  s.slot.value !in r.0.live && Stopped(r.0.flags[s.slot.value]))
  {
  }

  /** With a stale id recorded, a restart starts nothing and changes nothing. */
  lemma RestartRefusesWhenStale(s: AppState, newId: Tid)
    requires Valid(s) && newId !in Kill(s).live && Stale(s)
    ensures Restart(s, newId) == (s, None)
  {
  }

  /** What a route sends back: {'status': 'success'}, {'error': message}, or,
      when an exception escapes the route, Flask's internal server error. */
  datatype Response = Success | Failure(message: string) | ServerError

  /** The effect routes (/startrainbow, /colorwipe, /fadecolor, /fadepattern,
      /blink): restart with the new effect, and answer success whether or
      not a thread started. */
  function EffectRoute(s: AppState, newId: Tid): (r: (AppState, Response))
    requires Valid(s) && newId !in Kill(s).live
    ensures r.1 == Success
    ensures r.0 == Restart(s, newId).0
    ensures Stale(s) ==> r.0 == s
  {
    (Restart(s, newId).0, Success)
  }

  /** The /pause route: an error when no recorded thread is alive or when it
      is already paused; otherwise the thread is paused. Only the pause flag
      of the recorded thread can change. */
  function PauseRoute(s: AppState): (r: (AppState, Response))
    requires Valid(s)
    ensures GetThread(s).None? ==> r == (s, Failure("No thread found"))
    ensures GetThread(s).Some? && Paused(s.flags[s.slot.value]) ==> r == (s, Failure("Thread is already paused"))
    ensures r.1 == Success <==> GetThread(s).Some? && !Paused(s.flags[s.slot.value])
    ensures r.1 == Success ==>
              && r.0.slot == s.slot && r.0.live == s.live
              && r.0.flags == s.flags[s.slot.value := Pause(s.flags[s.slot.value])]
  {
    match GetThread(s)
    case None => (s, Failure("No thread found"))
    case Some(t) =>
      if !Paused(s.flags[t]) then (s.(flags := s.flags[t := Pause(s.flags[t])]), Success)
      else (s, Failure("Thread is already paused"))
  }

  /** The /resume route: an error when no recorded thread is alive or when
      it is not paused; otherwise the thread is resumed. */
  function ResumeRoute(s: AppState): (r: (AppState, Response))
    requires Valid(s)
    ensures GetThread(s).None? ==> r == (s, Failure("No thread found"))
    ensures GetThread(s).Some? && !Paused(s.flags[s.slot.value]) ==> r == (s, Failure("Thread is not paused"))
    ensures r.1 == Success <==> GetThread(s).Some? && Paused(s.flags[s.slot.value])
    ensures r.1 == Success ==>
              && r.0.slot == s.slot && r.0.live == s.live
              && r.0.flags == s.flags[s.slot.value := Resume(s.flags[s.slot.value])]
  {
    match GetThread(s)
    case None => (s, Failure("No thread found"))
    case Some(t) =>
      if Paused(s.flags[t]) then (s.(flags := s.flags[t := Resume(s.flags[t])]), Success)
      else (s, Failure("Thread is not paused"))
  }

  /** The /setbrightness route: the recorded thread is paused, then
      strip1.set_brightness raises AttributeError, since LEDStrip defines no
      such method. The resume that follows it never runs, so the route ends
      in a server error and leaves a live recorded thread paused. */
  function SetBrightnessRoute(s: AppState): (r: (AppState, Response))
    requires Valid(s)
    ensures Valid(r.0) && r.1 == ServerError
    ensures GetThread(s).None? ==> r.0 == s
    ensures GetThread(s).Some? ==>
              && r.0.slot == s.slot && r.0.live == s.live && r.0.flags.Keys == s.flags.Keys
              && Paused(r.0.flags[s.slot.value])
              && Stopped(r.0.flags[s.slot.value]) == Stopped(s.flags[s.slot.value])
              && forall u :: u in s.flags && u != s.slot.value ==> r.0.flags[u] == s.flags[u]
  {
    match GetThread(s)
    case None => (s, ServerError)
    case Some(t) => (s.(flags := s.flags[t := Pause(s.flags[t])]), ServerError)
  }

  /** After /setbrightness the animation stays paused: /pause is refused as
      a repeat, and only /resume sets it going again. */
  lemma BrightnessLeavesPaused(s: AppState)
    requires Valid(s) && GetThread(s).Some?
    ensures PauseRoute(SetBrightnessRoute(s).0).1 == Failure("Thread is already paused")
    ensures ResumeRoute(SetBrightnessRoute(s).0).1 == Success
  {
  }

  /** A successful pause is undone by a resume, which also succeeds. */
  lemma PauseThenResume(s: AppState)
    requires Valid(s) && PauseRoute(s).1 == Success
    ensures ResumeRoute(PauseRoute(s).0) == (s, Success)
  {
    var t := s.slot.value;
    var paused := PauseRoute(s).0;
    assert paused == s.(flags := s.flags[t := Pause(s.flags[t])]);
    assert GetThread(paused) == Some(t) && Paused(paused.flags[t]);
    assert paused.flags[t := Resume(paused.flags[t])] == s.flags;
  }

  /** A successful resume is undone by a pause, which also succeeds. */
  lemma ResumeThenPause(s: AppState)
    requires Valid(s) && ResumeRoute(s).1 == Success
    ensures PauseRoute(ResumeRoute(s).0) == (s, Success)
  {
    var t := s.slot.value;
    var resumed := ResumeRoute(s).0;
    assert resumed == s.(flags := s.flags[t := Resume(s.flags[t])]);
    assert GetThread(resumed) == Some(t) && !Paused(resumed.flags[t]);
    assert resumed.flags[t := Pause(resumed.flags[t])] == s.flags;
  }

  /** A second pause in a row is refused, and so is a second resume. */
  lemma RoutesRefuseRepeats(s: AppState)
    requires Valid(s)
    ensures PauseRoute(s).1 == Success ==> PauseRoute(PauseRoute(s).0).1 == Failure("Thread is already paused")
    ensures ResumeRoute(s).1 == Success ==> ResumeRoute(ResumeRoute(s).0).1 == Failure("Thread is not paused")
  {
  }

  /** A thread leaves on its own: its effect raised, or its loop ended. */
  function Exit(s: AppState, t: Tid): (r: AppState)
    ensures r.slot == s.slot && r.flags == s.flags
    ensures t !in r.live && r.live + {t} >= s.live && r.live <= s.live
  {
    s.(live := s.live - {t})
  }

  /** What can happen to the controller: the killing routes (/setcolor,
      /setpattern, /clear), an effect route with the new thread's ident, the
      two flag routes, /setbrightness, and a thread ending by itself. */
  datatype Op = KillOp | EffectOp(newId: Tid) | PauseOp | ResumeOp | BrightnessOp | ExitOp(t: Tid)

  /** A new thread's ident differs from every thread alive when it starts,
      that is, after the old thread has been killed. */
  predicate Admissible(s: AppState, op: Op)
    requires Valid(s)
  {
    op.EffectOp? ==> op.newId !in Kill(s).live
  }

  function Step(s: AppState, op: Op): (r: AppState)
    requires Valid(s) && Admissible(s, op)
    ensures Valid(r)
  {
    match op
    case KillOp => Kill(s)
    case EffectOp(newId) => EffectRoute(s, newId).0
    case PauseOp => PauseRoute(s).0
    case ResumeOp => ResumeRoute(s).0
    case BrightnessOp => SetBrightnessRoute(s).0
    case ExitOp(t) => Exit(s, t)
  }

  /** A sequence of operations each of which is admissible where it happens. */
  predicate AdmissibleTrace(s: AppState, ops: seq<Op>)
    decreases |ops|
  {
    Valid(s) && (|ops| > 0 ==> Admissible(s, ops[0]) && AdmissibleTrace(Step(s, ops[0]), ops[1..]))
  }

  function Run(s: AppState, ops: seq<Op>): (r: AppState)
    requires AdmissibleTrace(s, ops)
    ensures Valid(r)
    decreases |ops|
  {
    if |ops| == 0 then s else Run(Step(s, ops[0]), ops[1..])
  }

  /** The controller's invariant: every live animation thread is the
      recorded one, and none of them has been told to stop. */
  predicate Inv(s: AppState) {
    && Valid(s)
    && (forall t :: t in s.live ==> s.slot == Some(t))
    && (forall t :: t in s.live ==> !Stopped(s.flags[t]))
  }

  lemma InitInv()
    ensures Inv(Init) && !Stale(Init)
  {
  }

  /** Under the invariant at most one animation thread runs. */
  lemma AtMostOneLive(s: AppState)
    requires Inv(s)
    ensures |s.live| <= 1
  {
    if t :| t in s.live {
      assert s.live == {t};
    }
  }

  lemma {:induction false} StepInv(s: AppState, op: Op)
    requires Inv(s) && Admissible(s, op)
    ensures Inv(Step(s, op))
  {
  }

  /** The invariant holds after any admissible sequence of operations. */
  lemma {:induction false} RunInv(s: AppState, ops: seq<Op>)
    requires Inv(s) && AdmissibleTrace(s, ops)
    ensures Inv(Run(s, ops))
    decreases |ops|
  {
    if |ops| > 0 {
      StepInv(s, ops[0]);
      RunInv(Step(s, ops[0]), ops[1..]);
    }
  }

  /** Once the recorded id is stale it is never cleared: whatever happens
      afterwards the slot keeps that id and no animation thread ever runs
      again. */
  lemma {:induction false} StaleForever(s: AppState, ops: seq<Op>)
    requires Inv(s) && Stale(s) && AdmissibleTrace(s, ops)
    ensures Run(s, ops).slot == s.slot && Run(s, ops).live == {}
    decreases |ops|
  {
    if |ops| > 0 {
      var next := Step(s, ops[0]);
      assert s.live == {};
      StepInv(s, ops[0]);
      assert next.slot == s.slot && next.live == {};
      StaleForever(next, ops[1..]);
    }
  }

  /** A second effect may be given the ident of the thread it replaces,
      which was joined just before: the slot again records that ident, and
      the new thread runs. */
  lemma ReuseJoinedIdent()
    ensures var s1 := EffectRoute(Init, 1).0;
            var s2 := EffectRoute(s1, 1).0;
            && s2.slot == Some(1) && s2.live == {1} && !Stopped(s2.flags[1]) && Inv(s2)
  {
  }

  /** The stale-slot trace: a blink starts as thread 1, thread 1 dies, and a
      later effect request is answered with success yet starts nothing. */
  lemma StaleTrace()
    ensures var s1 := EffectRoute(Init, 1).0;
            var s2 := Exit(s1, 1);
            var r := EffectRoute(s2, 2);
            && s1.slot == Some(1) && s1.live == {1}
            && r.1 == Success && r.0.slot == Some(1) && r.0.live == {}
  {
  }
}
