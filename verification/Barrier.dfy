/**
The timer of src/timer.c as a barrier between devices that run on their own.
Every lock-protected block is one step; a condition wait is a step that is not enabled yet.
*/
module Barrier {

  /** A device is between barriers, inside `next_slot` after signalling, or detached. */
  datatype Device = Running | Waiting | Gone

  /** The timer collects signals from device `k` on, having seen `gone` detached ones; or it releases
      devices from `k` on, to stop after that if `last`; or it has left its loop. */
  datatype Timer = Collect(k: nat, gone: nat) | Release(k: nat, last: bool) | Exited

  /** `posted` are the `done` flags. The counters record how many slots a device has started and
      signalled, and how often the timer took its signal back. */
  datatype Sync = Sync(
    devs: seq<Device>, posted: seq<bool>,
    started: seq<nat>, signalled: seq<nat>, released: seq<nat>,
    timer: Timer, time: nat, stop: bool)

  datatype Action = Signal(d: nat) | Proceed(d: nat) | Detach(d: nat) | TimerStep | StopTimer

  ghost predicate Shape(s: Sync) {
    |s.devs| == |s.posted| == |s.started| == |s.signalled| == |s.released|
  }

  ghost predicate AllGone(s: Sync) {
    forall d :: 0 <= d < |s.devs| ==> s.devs[d].Gone?
  }

  ghost predicate Enabled(s: Sync, a: Action)
    requires Shape(s)
  {
    match a
    case Signal(d) => d < |s.devs| && s.devs[d].Running?
    case Proceed(d) => d < |s.devs| && s.devs[d].Waiting? && !s.posted[d]
    case Detach(d) => d < |s.devs| && s.devs[d].Running?
    case StopTimer => AllGone(s)
    case TimerStep =>
      match s.timer
      case Collect(k, _) => k < |s.devs| ==> s.posted[k] || s.devs[k].Gone?
      case Release(_, _) => true
      case Exited => false
  }

  ghost function TimerNext(s: Sync): Sync
    requires Shape(s) && Enabled(s, TimerStep)
  {
    match s.timer
    case Collect(k, gone) =>
      if k < |s.devs| then s.(timer := Collect(k + 1, if s.devs[k].Gone? then gone + 1 else gone))
      else s.(time := s.time + 1, timer := Release(0, gone == |s.devs|))
    case Release(k, last) =>
      if k < |s.devs| then
        s.(posted := s.posted[k := false],
           released := if s.posted[k] then s.released[k := s.released[k] + 1] else s.released,
           timer := Release(k + 1, last))
      else s.(timer := if last || s.stop then Exited else Collect(0, 0))
  }

  ghost function Next(s: Sync, a: Action): Sync
    requires Shape(s) && Enabled(s, a)
  {
    match a
    case Signal(d) => s.(devs := s.devs[d := Waiting], posted := s.posted[d := true],
                         signalled := s.signalled[d := s.signalled[d] + 1])
    case Proceed(d) => s.(devs := s.devs[d := Running], started := s.started[d := s.started[d] + 1])
    case Detach(d) => s.(devs := s.devs[d := Gone])
    case StopTimer => s.(stop := true)
    case TimerStep => TimerNext(s)
  }

  ghost predicate Initial(s: Sync) {
    && Shape(s)
    && (forall d :: 0 <= d < |s.devs| ==>
          s.devs[d].Running? && !s.posted[d] && s.started[d] == s.signalled[d] == s.released[d] == 0)
    && s.timer == Collect(0, 0) && s.time == 0 && !s.stop
  }

  // ---------- Invariant ----------

  /** Released, but not yet through `next_slot`. */
  ghost predicate Behind(s: Sync, d: nat)
    requires Shape(s) && d < |s.devs|
  {
    s.devs[d].Waiting? && !s.posted[d]
  }

  /** In the current tick, has the timer already dealt with device `d`? */
  ghost predicate Served(s: Sync, d: nat) {
    s.timer.Release? ==> d < s.timer.k
  }

  ghost predicate DeviceInv(s: Sync, d: nat)
    requires Shape(s) && d < |s.devs|
  {
    && s.signalled[d] == s.started[d] + (if s.devs[d].Waiting? then 1 else 0)
    && s.released[d] == s.started[d] + (if Behind(s, d) then 1 else 0)
    && s.released[d] <= s.time
    && (s.posted[d] ==> s.devs[d].Waiting?)
    && (!s.devs[d].Gone? ==>
          && (Served(s, d) ==> s.released[d] == s.time)
          && (!Served(s, d) ==> s.posted[d] && s.released[d] + 1 == s.time)
          && (s.timer.Collect? && d < s.timer.k ==> s.posted[d]))
  }

  ghost predicate Inv(s: Sync) {
    && Shape(s)
    && (forall d :: 0 <= d < |s.devs| ==> DeviceInv(s, d))
    && (s.stop ==> AllGone(s))
    && match s.timer
       case Collect(k, gone) =>
         gone <= k <= |s.devs| && (gone == k <==> forall d :: 0 <= d < k ==> s.devs[d].Gone?)
       case Release(k, last) => k <= |s.devs| && (last ==> AllGone(s))
       case Exited => AllGone(s)
  }

  lemma TimerKeepsInv(s: Sync)
    requires Inv(s) && Enabled(s, TimerStep)
    ensures Inv(Next(s, TimerStep))
  {
    var r := Next(s, TimerStep);
    forall d | 0 <= d < |r.devs| ensures DeviceInv(r, d) {
      assert DeviceInv(s, d);
    }
  }

  lemma NextKeepsInv(s: Sync, a: Action)
    requires Inv(s) && Enabled(s, a)
    ensures Inv(Next(s, a))
  {
    if a.TimerStep? {
      TimerKeepsInv(s);
    } else {
      var r := Next(s, a);
      forall d | 0 <= d < |r.devs| ensures DeviceInv(r, d) {
        assert DeviceInv(s, d);
      }
      if s.timer.Collect? && s.timer.gone < s.timer.k {
        var d :| 0 <= d < s.timer.k && !s.devs[d].Gone?;
        assert DeviceInv(s, d) && !r.devs[d].Gone?;
      }
      if !a.StopTimer? { assert !AllGone(s) by { assert !s.devs[a.d].Gone?; } }
    }
  }

  // ---------- Runs ----------

  ghost predicate Reaches(s0: Sync, acts: seq<Action>, s: Sync)
    decreases |acts|
  {
    if acts == [] then s == s0
    else
      var n := |acts| - 1;
      exists p :: Reaches(s0, acts[..n], p) && Shape(p) && Enabled(p, acts[n]) && s == Next(p, acts[n])
  }

  lemma {:induction false} ReachableInv(s0: Sync, acts: seq<Action>, s: Sync)
    requires Initial(s0) && Reaches(s0, acts, s)
    ensures Inv(s)
    decreases |acts|
  {
    if acts == [] {
      forall d | 0 <= d < |s.devs| ensures DeviceInv(s, d) { }
    } else {
      var n := |acts| - 1;
      var p :| Reaches(s0, acts[..n], p) && Shape(p) && Enabled(p, acts[n]) && s == Next(p, acts[n]);
      ReachableInv(s0, acts[..n], p);
      NextKeepsInv(p, acts[n]);
    }
  }

  /** A device that has started slot t was preceded by every attached device's signal for slot t-1; slots of
      attached devices differ by at most one; and between ticks the timer has released every attached
      device once per tick. */
  ghost predicate InStep(s: Sync, d: nat, e: nat)
    requires Shape(s) && d < |s.devs| && e < |s.devs|
  {
    !s.devs[e].Gone? ==>
      && s.started[d] <= s.signalled[e]
      && (!s.devs[d].Gone? ==> s.started[d] <= s.started[e] + 1 && s.started[e] <= s.started[d] + 1)
      && (s.timer.Collect? ==> s.released[e] == s.time)
      && s.time <= s.released[e] + 1
  }

  lemma InvInStep(s: Sync, d: nat, e: nat)
    requires Inv(s) && d < |s.devs| && e < |s.devs|
    ensures InStep(s, d, e)
  {
    assert DeviceInv(s, d) && DeviceInv(s, e);
  }

  /** In every interleaving of timer and devices, all devices are in step. */
  lemma BarrierSafety(s0: Sync, acts: seq<Action>, s: Sync, d: nat, e: nat)
    requires Initial(s0) && Reaches(s0, acts, s) && Shape(s) && d < |s.devs| && e < |s.devs|
    ensures InStep(s, d, e)
  {
    ReachableInv(s0, acts, s);
    InvInStep(s, d, e);
  }

  /** The barrier cannot get stuck: when no attached device is running or able to run, the timer can move. */
  lemma BarrierProgress(s0: Sync, acts: seq<Action>, s: Sync)
    requires Initial(s0) && Reaches(s0, acts, s)
    ensures Shape(s)
    ensures (forall d :: 0 <= d < |s.devs| ==> !Enabled(s, Signal(d)) && !Enabled(s, Proceed(d))) ==>
              s.timer.Exited? || Enabled(s, TimerStep)
    ensures s.timer.Exited? ==> AllGone(s)
  {
    ReachableInv(s0, acts, s);
    if s.timer.Collect? && s.timer.k < |s.devs| {
      assert DeviceInv(s, s.timer.k);
      assert !Enabled(s, Signal(s.timer.k)) && !Enabled(s, Proceed(s.timer.k)) ==>
               s.posted[s.timer.k] || s.devs[s.timer.k].Gone?;
    }
  }
}
