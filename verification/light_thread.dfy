/**
  LightThread: an animation thread carrying two threading.Event flags. The
  stop flag is only ever set; the pause flag is set by pause() and cleared
  by resume(). The effect loops poll the flags, which are all a thread
  exposes to the controller.
 */
module LightThread {

  /** The two events' is_set() values. */
  datatype Flags = Flags(stopSet: bool, pauseSet: bool)

  /** The three calls that change the flags. */
  datatype Event = StopEv | PauseEv | ResumeEv

  /** A freshly constructed thread: both events start cleared. */
  function New(): (f: Flags)
    ensures !Stopped(f) && !Paused(f)
  {
    Flags(false, false)
  }

  predicate Stopped(f: Flags) {
    f.stopSet
  }

  predicate Paused(f: Flags) {
    f.pauseSet
  }

  /** stop(): the stop event is set; the pause event is untouched. */
  function Stop(f: Flags): (g: Flags)
    ensures Stopped(g)
    ensures Paused(g) == Paused(f)
  {
    f.(stopSet := true)
  }

  /** pause(): the pause event is set; the stop event is untouched. */
  function Pause(f: Flags): (g: Flags)
    ensures Paused(g)
    ensures Stopped(g) == Stopped(f)
  {
    f.(pauseSet := true)
  }

  /** resume(): the pause event is cleared; the stop event is untouched. */
  function Resume(f: Flags): (g: Flags)
    ensures !Paused(g)
    ensures Stopped(g) == Stopped(f)
  {
    f.(pauseSet := false)
  }

  function Apply(f: Flags, e: Event): Flags {
    match e
    case StopEv => Stop(f)
    case PauseEv => Pause(f)
    case ResumeEv => Resume(f)
  }

  /** The flags after a sequence of calls, first call first. */
  function Run(f: Flags, events: seq<Event>): (g: Flags)
    ensures Stopped(f) ==> Stopped(g)
    decreases |events|
  {
    if |events| == 0 then f else Run(Apply(f, events[0]), events[1..])
  }

  /** Every call is idempotent: making it twice is making it once. */
  lemma ApplyIdempotent(f: Flags, e: Event)
    ensures Apply(Apply(f, e), e) == Apply(f, e)
  {
  }

  /** The two flags are independent: stopping commutes with pausing and
      with resuming. */
  lemma StopCommutes(f: Flags, e: Event)
    ensures Apply(Stop(f), e) == Stop(Apply(f, e))
  {
  }

  /** Between pause and resume the later call wins. */
  lemma LastLevelWins(f: Flags)
    ensures Resume(Pause(f)) == Resume(f)
    ensures Pause(Resume(f)) == Pause(f)
  {
  }

  /** A thread is stopped after a sequence of calls exactly when it was
      stopped before or one of the calls was stop(): nothing clears the
      stop event. */
  lemma {:induction false} RunStopped(f: Flags, events: seq<Event>)
    ensures Stopped(Run(f, events)) <==> Stopped(f) || StopEv in events
    decreases |events|
  {
    if |events| > 0 {
      RunStopped(Apply(f, events[0]), events[1..]);
      assert events == [events[0]] + events[1..];
    }
  }

  /** A thread is paused after a sequence of calls exactly when the last
      pause() or resume() among them was pause(), or, when there was
      neither, when it was paused before. stop() plays no part. */
  lemma {:induction false} RunPaused(f: Flags, events: seq<Event>)
    ensures Paused(Run(f, events)) <==>
              || (exists i :: 0 <= i < |events| && events[i] == PauseEv &&
                    forall j :: i < j < |events| ==> events[j] != ResumeEv)
              || (Paused(f) && ResumeEv !in events)
    decreases |events|
  {
    if |events| > 0 {
      var e, tail := events[0], events[1..];
      RunPaused(Apply(f, e), tail);
      assert forall j :: 0 <= j < |tail| ==> tail[j] == events[j + 1];
      var g := Run(f, events);
      if Paused(g) {
        if i :| 0 <= i < |tail| && tail[i] == PauseEv && forall j :: i < j < |tail| ==> tail[j] != ResumeEv {
          assert events[i + 1] == PauseEv;
          assert forall j :: i + 1 < j < |events| ==> events[j] != ResumeEv;
        } else {
          assert ResumeEv !in tail;
          if e == PauseEv {
            assert forall j :: 0 < j < |events| ==> events[j] != ResumeEv;
          }
        }
      } else {
        forall i | 0 <= i < |events| && events[i] == PauseEv
          ensures exists j :: i < j < |events| && events[j] == ResumeEv
        {
          if i == 0 {
            assert Paused(Apply(f, e));
            var j :| 0 <= j < |tail| && tail[j] == ResumeEv;
            assert events[j + 1] == ResumeEv;
          } else {
            var j :| i - 1 < j < |tail| && tail[j] == ResumeEv;
            assert events[j + 1] == ResumeEv;
          }
        }
      }
    }
  }
}
