/**
 A player and its timeline, after lib/dtv-gingaplayer/src/player/timelinetimer.cpp,
 lib/dtv-gingaplayer/src/player.cpp and player.h.

 The two call each other: the player drives the timeline, and timers that fire may stop the player
 from inside one of the timeline's own steps.  Time is read in microseconds from a clock that
 never goes back.
 */
module Playback {
  import opened TimerHeap
  import opened TimerHistory
  import opened T = PropertyTrees
  import P = Properties

  class Clock {
    var now: nat

    method Read() returns (t: nat)
      modifies this
      ensures t == now && old(now) <= now
    {
      t :| now <= t;
      now := t;
    }

    /** `registerTimer`: the timer expires that many milliseconds after the instant of the call. */
    method Register(ms: nat) returns (t: SystemTimer)
      modifies this
      ensures t == Waiting(now + 1000 * ms) && old(now) <= now
    {
      var called := Read();
      t := Waiting(called + 1000 * ms);
    }
  }

  datatype State = Stopped | Paused | Running

  /** The system timer: not registered, or registered to expire at an instant. */
  datatype SystemTimer = Invalid | Waiting(at: nat)

  /** The timer stops a player of that duration when it fires. */
  predicate Asks(t: Timer, duration: int) {
    match t.callback
    case Expire(d) => d == duration
    case Call(stops) => stops
  }

  /**
   What is left of the running time, in microseconds, after `elapsed` milliseconds and the time
   lost between two clock readings: a truncation for each of `cancels` and `more`.
   */
  ghost predicate Lag(ran: nat, lost: nat, elapsed: nat, cancels: nat) {
    0 <= ran - lost - 1000 * elapsed <= 999 * cancels
  }

  lemma NoLag()
    ensures Lag(0, 0, 0, 0)
  {
  }

  /** A measurement of `d` microseconds ends: its whole milliseconds count. */
  lemma LagOfCut(ran: nat, lost: nat, elapsed: nat, cancels: nat, d: nat)
    requires Lag(ran, lost, elapsed, cancels)
    ensures Lag(ran + d, lost, elapsed + d / 1000, cancels + 1)
  {
  }

  /** `d` microseconds go unmeasured. */
  lemma LagOfGap(ran: nat, lost: nat, elapsed: nat, cancels: nat, d: nat)
    requires Lag(ran, lost, elapsed, cancels)
    ensures Lag(ran + d, lost + d, elapsed, cancels)
  {
  }

  class TimeLineTimer {
    const clock: Clock
    var player: Player?

    var state: State
    var elapsed: nat
    var startTimer: nat
    var timerID: SystemTimer
    var timers: seq<Timer>
    var made: nat // gives every timer object its identity

    // What happened to the timers
    ghost var added: seq<Timer>
    ghost var dispatched: seq<Dispatch>
    ghost var dropped: seq<Timer>

    // The running time since the start: `banked` of it up to the instant `cut`, of which `lost` passed
    // between stopping one measurement and starting the next; and how often it was cancelled
    ghost var banked: nat
    ghost var cut: nat
    ghost var lost: nat
    ghost var cancels: nat

    // The instant at which the system timer was registered last
    ghost var armed: nat

    constructor (clock: Clock)
      ensures Valid() && state.Stopped? && this.clock == clock && player == null && added == []
    {
      this.clock, player := clock, null;
      state, elapsed, startTimer, timerID, timers := Stopped, 0, 0, Invalid, [];
      made := 0;
      added, dispatched, dropped := [], [], [];
      banked, cut, lost, cancels, armed := 0, 0, 0, 0, 0;
      new;
      NothingIsReached();
    }

    ghost function Hist(): History
      reads this
    {
      History(added, timers, dispatched, dropped)
    }

    /** The unpaused running time since the start, up to the instant `at`. */
    ghost function Ran(at: nat): nat
      requires state.Running? ==> cut <= at
      reads this
    {
      if state.Running? then banked + (at - cut) else banked
    }

    /** All that the uptime and the running time depend on. */
    ghost function Clockwork(): (nat, nat, nat, nat, nat, nat)
      reads this
    {
      (elapsed, startTimer, banked, cut, lost, cancels)
    }

    ghost function UptimeAt(at: nat): nat
      requires state.Running? ==> startTimer <= at
      reads this
    {
      match state
      case Running => elapsed + (at - startTimer) / 1000
      case Paused => elapsed
      case Stopped => 0
    }

    ghost predicate Timing()
      reads this, clock
    {
      && Lag(banked, lost, elapsed, cancels)
      && (state.Running? ==> cut <= clock.now)
      && (state.Stopped? ==> elapsed == banked == lost == cancels == 0)
    }

    ghost predicate Sound()
      reads this, clock
    {
      && Reached(Hist()) && made == |added| && Timing()
      && (timerID.Waiting? ==> state.Running?)
    }

    /** While the timeline runs, a measurement is under way since `startTimer`. */
    ghost predicate Measuring()
      reads this
    {
      state.Running? ==> startTimer == cut
    }

    /** The system timer is registered exactly when there is something to wait for, and for what is left of that. */
    ghost predicate Armed()
      reads this, clock
    {
      && (timerID.Waiting? <==> state.Running? && timers != [])
      && (timerID.Waiting? ==>
            && startTimer <= armed <= clock.now
            && elapsed <= timers[0].ms && timerID.at == armed + 1000 * (timers[0].ms - elapsed))
    }

    ghost predicate Valid()
      reads this, clock
    {
      Sound() && Measuring() && Armed()
    }

    /** The player may be called back while the timeline runs. */
    ghost predicate Owned()
      reads this, player
    {
      player != null && player.timer == this && (state.Running? ==> player.playing)
    }

    /**
     Timers fired, in this order and only while the timeline ran, and that is all: if the last of them
     asks to stop the player is stopped, and otherwise none of them does and it goes on as before, with
     no timer dropped.
     */
    twostate predicate OnlyFired()
      reads this, player
    {
      && player == old(player) && player != null && old(dispatched) <= dispatched
      && (!old(state).Running? ==> Clockwork() == old(Clockwork()))
      && (|| (state == old(state) && dropped == old(dropped)
              && player.playing == old(player.playing) && player.paused == old(player.paused)
              && (state.Running? || dispatched == old(dispatched)) && NobodyAsked(|old(dispatched)|, |dispatched|))
          || (old(state).Running? && state.Stopped? && !player.playing && !player.paused
              && old(dispatched) != dispatched && Asks(dispatched[|dispatched| - 1].timer, player.Duration())
              && NobodyAsked(|old(dispatched)|, |dispatched| - 1)))
    }

    /** None of these dispatches was of a timer that asks to stop. */
    ghost predicate NobodyAsked(from: nat, to: nat)
      requires player != null
      reads this, player
    {
      forall i :: from <= i < to && i < |dispatched| ==> !Asks(dispatched[i].timer, player.Duration())
    }

    // ----- Methods

    /**
     `addTimer`.  Unless a timer that fires stops the player, the uptime goes on from its value at
     the instant `at`, and the time from then to the next reading is lost.
     */
    method AddTimer(ms: nat, callback: Callback) returns (ghost at: nat)
      requires Valid() && Owned()
      modifies this, clock, player`playing, player`paused
      ensures Valid() && added == old(added) + [Timer(|old(added)|, ms, callback)]
      ensures OnlyFired() && old(clock.now) <= at <= clock.now
      ensures old(state).Running? && state.Running? ==>
                && old(startTimer) <= at <= startTimer
                && Clockwork() == (old(elapsed) + (at - old(startTimer)) / 1000, startTimer, banked, startTimer,
                                   old(lost) + (startTimer - at), old(cancels) + 1)
    {
      hide Reached, Lag;
      CancelTimer();
      at := clock.now;
      var t := Timer(made, ms, callback);
      Insert(t);
      Restart();
    }

    method Start()
      requires Valid() && player != null && player.timer == this && player.playing
      modifies this, clock, player`playing, player`paused
      ensures Valid() && added == old(added)
      ensures if old(state).Running? then OnlyFired()
              else state.Running? && player == old(player) && player.playing && player.paused == old(player.paused)
                   && dispatched == old(dispatched)
      ensures !old(state).Running? ==> dropped == old(dropped)
      ensures !old(state).Running? ==>
                old(clock.now) <= startTimer && elapsed == 0 && cancels == 0 && lost == startTimer - old(clock.now)
    {
      hide Reached, Lag;
      if !state.Running? {
        state := Running;
        elapsed := 0;
        banked, lost, cancels, cut := 0, 0, 0, clock.now;
        NoLag();
        Restart();
      }
    }

    method Stop()
      requires Sound() && Measuring()
      modifies this, clock
      ensures Valid() && state.Stopped? && player == old(player)
      ensures added == old(added) && dispatched == old(dispatched)
      ensures (timers == [] || old(state).Stopped?) && old(clock.now) <= clock.now
    {
      hide Reached, Lag;
      if !state.Stopped? {
        Halt();
        CleanTimers();
      }
    }

    /** The part of `stop` before the timers are dropped. */
    method Halt()
      requires Sound() && Measuring()
      modifies this, clock
      ensures Sound() && state.Stopped? && timerID.Invalid? && player == old(player)
      ensures added == old(added) && dispatched == old(dispatched) && old(clock.now) <= clock.now
    {
      hide Reached, Lag;
      CancelTimer();
      state := Stopped;
      elapsed := 0;
      banked, lost, cancels := 0, 0, 0;
      NoLag();
    }

    method Pause()
      requires Valid()
      modifies this, clock
      ensures Valid() && state == (if old(state).Running? then Paused else old(state))
      ensures player == old(player) && timers == old(timers) && added == old(added) && dispatched == old(dispatched)
      ensures dropped == old(dropped) && (!old(state).Running? ==> Clockwork() == old(Clockwork()))
      ensures old(state).Running? ==>
                startTimer <= clock.now && elapsed == old(elapsed) + (clock.now - startTimer) / 1000
    {
      hide Reached, Lag;
      if state.Running? {
        CancelTimer();
        state := Paused;
      }
    }

    method Unpause()
      requires Valid() && player != null && player.timer == this && player.playing
      modifies this, clock, player`playing, player`paused
      ensures Valid() && added == old(added) && old(dispatched) <= dispatched
      ensures player == old(player)
      ensures if !old(state).Paused? then state == old(state) && player.playing && player.paused == old(player.paused)
              else || (state.Running? && player.playing && player.paused == old(player.paused))
                   || (state.Stopped? && !player.playing && !player.paused && old(dispatched) != dispatched)
      ensures old(state).Paused? ==>
                NobodyAsked(|old(dispatched)|, if state.Stopped? then |dispatched| - 1 else |dispatched|)
      ensures state == old(state) || state.Running? ==> dropped == old(dropped)
      ensures old(state).Paused? && state.Running? ==>
                old(clock.now) <= startTimer && elapsed == old(elapsed) && cancels == old(cancels)
                && lost == old(lost) + (startTimer - old(clock.now))
      ensures old(state).Paused? && state.Stopped? ==> Asks(dispatched[|dispatched| - 1].timer, player.Duration())
    {
      hide Reached, Lag;
      if state.Paused? {
        state := Running;
        cut := clock.now;
        Restart();
      }
    }

    /** When the system timer expires, the front timer is due, and by no more than it took to register it. */
    lemma ExpiresInTime()
      requires Valid() && timerID.Waiting?
      ensures startTimer <= timerID.at && timers[0].ms <= UptimeAt(timerID.at)
      ensures UptimeAt(timerID.at) == timers[0].ms + (armed - startTimer) / 1000
    {
    }

    /** The uptime never exceeds the running time, and lags it by less than a millisecond for each measurement. */
    lemma UptimeLags()
      requires Timing() && Measuring()
      ensures 0 <= Ran(clock.now) - lost - 1000 * UptimeAt(clock.now) < 1000 * (cancels + 1)
    {
    }

    method Uptime() returns (ms: nat)
      requires Valid()
      modifies clock
      ensures Valid() && ms == UptimeAt(clock.now)
      ensures 0 <= Ran(clock.now) - lost - 1000 * ms < 1000 * (cancels + 1)
    {
      if state.Running? {
        var now := clock.Read();
        ms := elapsed + (now - startTimer) / 1000;
      } else if state.Paused? {
        ms := elapsed;
      } else {
        ms := 0;
      }
    }

    // ----- Aux

    method CleanTimers()
      requires Reached(Hist())
      modifies `timers, `dropped
      ensures Reached(Hist()) && timers == []
    {
      hide Reached, IsHeap;
      while timers != []
        invariant Reached(Hist())
        decreases |timers|
      {
        ghost var before := Hist();
        var t := RemoveFront();
        Goes(before, Drops(t, timers));
        dropped := dropped + [t];
      }
    }

    /** `startTimer`: timers that are overdue fire, and the system timer waits for the next one. */
    method Restart()
      requires Sound() && Owned() && timerID.Invalid?
      modifies this, clock, player`playing, player`paused
      ensures Valid() && added == old(added)
      ensures OnlyFired()
      ensures old(elapsed) == 0 ==> state == old(state) && dispatched == old(dispatched)
      ensures old(clock.now) <= clock.now && (!old(state).Running? ==> timerID.Invalid?)
      ensures timerID.Waiting? ==> timerID.at <= clock.now + 1000 * (timers[0].ms - elapsed)
      ensures state.Running? ==>
                && old(cut) <= startTimer
                && Clockwork() == (old(elapsed), startTimer, banked, startTimer,
                                   old(lost) + (startTimer - old(cut)), old(cancels))
    {
      hide Reached, Lag;
      if state.Running? {
        var now := clock.Read();
        startTimer := now;
        LagOfGap(banked, lost, elapsed, cancels, now - cut);
        lost, banked, cut := lost + (now - cut), banked + (now - cut), now;
        Drain();
      }
    }

    /** The loop of `startTimer`, once the measurement has begun. */
    method Drain()
      requires Sound() && Measuring() && Owned() && state.Running? && timerID.Invalid? && startTimer <= clock.now
      modifies this, clock, player`playing, player`paused
      ensures Valid() && added == old(added) && OnlyFired() && old(clock.now) <= clock.now
      ensures old(elapsed) == 0 ==> state == old(state) && dispatched == old(dispatched)
      ensures timerID.Waiting? ==> timerID.at <= clock.now + 1000 * (timers[0].ms - elapsed)
      ensures state.Running? ==> Clockwork() == old(Clockwork())
    {
      hide Reached, Lag;
      var drained := false;
      while !drained && timers != []
        invariant Sound() && Measuring() && Owned() && added == old(added)
        invariant OnlyFired() && (state.Running? || timers == [])
        invariant old(clock.now) <= clock.now && (state.Running? ==> Clockwork() == old(Clockwork()))
        invariant if drained then Armed() else timerID.Invalid?
        invariant old(elapsed) == 0 ==> elapsed == 0 && state.Running? && dispatched == old(dispatched)
        decreases !drained, |timers|
      {
        if elapsed > timers[0].ms {
          RemoveAndDispatch();
        } else {
          var min := timers[0].ms - elapsed;
          timerID := clock.Register(min);
          armed := clock.now;
          drained := true;
        }
      }
    }

    /** The measurement stops, and the whole milliseconds of it count as uptime. */
    method CancelTimer()
      requires Sound() && Measuring()
      modifies `timerID, `elapsed, `banked, `cut, `cancels, clock
      ensures Sound() && timerID.Invalid?
      ensures !state.Running? ==> Clockwork() == old(Clockwork()) && clock.now == old(clock.now)
      ensures state.Running? ==> old(clock.now) <= clock.now == cut && cancels == old(cancels) + 1
      ensures state.Running? ==> startTimer <= clock.now && elapsed == old(elapsed) + (clock.now - startTimer) / 1000
    {
      hide Reached, Lag;
      if state.Running? {
        timerID := Invalid;
        var now := clock.Read();
        LagOfCut(banked, lost, elapsed, cancels, now - cut);
        elapsed := elapsed + (now - startTimer) / 1000;
        banked, cut, cancels := banked + (now - cut), now, cancels + 1;
      }
    }

    /** The list part of `addTimer`. */
    method Insert(t: Timer)
      requires Reached(Hist()) && made == |added| && t.id == made
      modifies `timers, `added, `made
      ensures Reached(Hist()) && made == |added| && added == old(added) + [t]
    {
      hide Reached;
      assert IsHeap((timers + [t])[..|timers|]) by {
        ReachedIsSane(Hist());
        assert (timers + [t])[..|timers|] == timers;
      }
      var pending := PushHeap(timers + [t]);
      Goes(Hist(), Adds(t, pending));
      timers, added, made := pending, added + [t], made + 1;
    }

    /** The list part of `removeTimer`. */
    method RemoveFront() returns (t: Timer)
      requires timers != [] && Reached(Hist())
      modifies `timers
      ensures t == old(timers[0]) && IsHeap(timers)
      ensures |timers| + 1 == old(|timers|) && multiset(timers + [t]) == multiset(old(timers))
    {
      assert IsHeap(timers) by {
        ReachedIsSane(Hist());
      }
      var popped := PopHeap(timers);
      t := popped[|popped| - 1];
      timers := popped[..|popped| - 1];
      assert popped == timers + [t];
    }

    /** `removeTimer` with its dispatch. */
    method RemoveAndDispatch()
      requires Sound() && Measuring() && Owned() && state.Running? && timerID.Invalid? && timers != []
      requires timers[0].ms <= UptimeAt(clock.now)
      modifies this, clock, player`playing, player`paused
      ensures Sound() && Measuring() && Owned() && timerID.Invalid? && |timers| < old(|timers|)
      ensures OnlyFired() && added == old(added) && (state.Running? || timers == [])
      ensures old(clock.now) <= clock.now && (state.Running? ==> Clockwork() == old(Clockwork()))
      ensures dispatched == old(dispatched) + [Dispatch(old(timers[0]), old(UptimeAt(clock.now)),
                                                        old(Ran(clock.now)), |old(added)|)]
      ensures old(timers[0]).callback.Expire? ==>
                (state.Stopped? <==> old(timers[0]).callback.duration == player.Duration())
      ensures old(timers[0]).callback.Call? ==> (state.Stopped? <==> old(timers[0]).callback.stops)
    {
      hide Reached, Lag;
      ghost var before := Hist();
      var t := RemoveFront();
      UptimeLags();
      ghost var d := Dispatch(t, UptimeAt(clock.now), Ran(clock.now), |added|);
      Goes(before, Dispatches(d, timers));
      dispatched := dispatched + [d];
      match t.callback
      case Expire(duration) => player.OnDurationExpired(duration);
      case Call(stops) => if stops { player.Stop(); }
    }

    /** The system timer has expired; if the timeline goes on the uptime does so from its value at the instant `at`. */
    method OnExpired() returns (ghost at: nat)
      requires Valid() && Owned() && timerID.Waiting? && timerID.at <= clock.now
      modifies this, clock, player`playing, player`paused
      ensures Valid() && added == old(added)
      ensures OnlyFired() && old(clock.now) <= at <= clock.now
      ensures state.Running? ==>
                && old(startTimer) <= at <= startTimer
                && Clockwork() == (old(elapsed) + (at - old(startTimer)) / 1000, startTimer, banked, startTimer,
                                   old(lost) + (startTimer - at), old(cancels) + 1)
      ensures |dispatched| > old(|dispatched|) && dispatched[old(|dispatched|)].timer == old(timers[0])
      ensures old(timers[0]).callback.Expire? && old(timers[0]).callback.duration == player.Duration() ==>
                state.Stopped? && !player.playing
      ensures old(timers[0]).callback.Call? && old(timers[0]).callback.stops ==> state.Stopped? && !player.playing
    {
      hide Reached, Lag;
      timerID := Invalid;
      RemoveAndDispatch();
      CancelTimer();
      at := clock.now;
      Restart();
    }
  }

  // The numbers of the names that every player registers

  const EXPLICIT_DURATION := 14
  const TYPE := 54
  const SOURCE := 82

  /** The function that the explicit duration applies. */
  const APPLY_DURATION := 0

  // The variables of every player that its properties are bound to

  const URL := 0
  const KIND := 1
  const DURATION := 2

  /** The timers that those functions add, if the last one made was `made - 1`. */
  function TimersFor(hooks: seq<int>, duration: int, made: nat): seq<Timer> {
    if duration <= 0 then []
    else seq(multiset(hooks)[APPLY_DURATION], i requires i >= 0 => Timer(made + i, duration, Expire(duration)))
  }

  /** One for each time that the duration is applied. */
  lemma TimersForMore(hooks: seq<int>, more: seq<int>, duration: int, made: nat)
    ensures var first := TimersFor(hooks, duration, made);
            TimersFor(hooks + more, duration, made) == first + TimersFor(more, duration, made + |first|)
    ensures TimersFor([], duration, made) == []
  {
    assert multiset(hooks + more) == multiset(hooks) + multiset(more);
  }

  /** The property that every player registers under one of those names. */
  function BaseLeaf(name: int, checkUrl: int -> bool): (t: Tree)
    ensures t.Leaf? && t.changed && !t.hook.Shared?
  {
    if name == SOURCE then Leaf(URL, true, checkUrl, Nothing, true)
    else if name == TYPE then Leaf(KIND, true, x => true, Nothing, true)
    else Leaf(DURATION, true, x => x >= 0, Own(APPLY_DURATION), false)
  }

  lemma BaseVariables(checkUrl: int -> bool)
    ensures BaseLeaf(SOURCE, checkUrl).variable == URL && BaseLeaf(TYPE, checkUrl).variable == KIND
    ensures BaseLeaf(EXPLICIT_DURATION, checkUrl).variable == DURATION
  {
  }

  /** What `addProperty` makes of the registered properties. */
  ghost function Added(registry: map<int, Tree>, name: int, t: Tree): (r: map<int, Tree>)
    ensures r.Keys == registry.Keys + {name}
  {
    registry[name := if name in registry then Node([registry[name], t], true) else t]
  }

  /** What `registerProperties` makes of them. */
  ghost function WithBase(registry: map<int, Tree>, checkUrl: int -> bool): (r: map<int, Tree>)
    ensures r.Keys == registry.Keys + {SOURCE, TYPE, EXPLICIT_DURATION}
  {
    Added(Added(Added(registry, SOURCE, BaseLeaf(SOURCE, checkUrl)),
                TYPE, BaseLeaf(TYPE, checkUrl)),
          EXPLICIT_DURATION, BaseLeaf(EXPLICIT_DURATION, checkUrl))
  }

  class Player {
    const timer: TimeLineTimer
    var initialized: bool
    var playing: bool
    var paused: bool

    // The properties by the number of their names, in ascending order, the flags they share, and what
    // the variables hold that they are bound to
    var names: seq<int>
    var properties: seq<Tree>
    ghost var groups: set<Group>
    var values: Store

    // The functions of their own that applied properties have run; how often the player was
    // refreshed, and told that properties had changed
    ghost var ran: seq<int>
    ghost var refreshes: nat
    ghost var notices: nat

    constructor (clock: Clock, values: Store)
      ensures Valid() && Orderly() && !playing && !initialized && properties == [] && this.values == values
      ensures names == [] && groups == {} && ran == []
      ensures fresh(timer) && timer.clock == clock && timer.added == []
    {
      timer := new TimeLineTimer(clock);
      initialized, playing, paused := false, false, false;
      names, properties, groups, this.values := [], [], {}, values;
      ran, refreshes, notices := [], 0, 0;
      new;
      timer.player := this;
    }

    /** The player is playing exactly when its timeline is not stopped, and paused exactly when it is paused. */
    ghost predicate Agrees()
      reads this, timer
    {
      playing == !timer.state.Stopped? && paused == timer.state.Paused?
    }

    ghost predicate Registered()
      reads this`names, this`properties, this`groups
    {
      && Ascending(names) && |names| == |properties|
      && (forall t :: t in properties ==> Proper(t) && P.AllGroups(t) <= groups)
    }

    ghost predicate Valid()
      reads this, timer, timer.clock
    {
      timer.player == this && timer.Valid() && Agrees() && Registered()
    }

    /** The groups whose flag is clear. */
    ghost function Down(): set<Group>
      reads this`groups, groups
    {
      set g | g in groups && !g.applied
    }

    /**
     Nothing is flagged while playing, every flagged property is reached by applying and remembered
     by its group, the variables under one name are equal, and no two properties share a variable.
     */
    ghost predicate Orderly()
      reads this`properties, this`groups, this`playing, this`values, groups
    {
      AllOrdered(properties, values, Down(), playing)
    }

    /** How often each group's function has been called. */
    ghost function Calls(): map<Group, nat>
      reads this, groups
    {
      map g | g in groups :: g.calls
    }

    /** The function of a group has been called once if a member was flagged, and not otherwise. */
    ghost predicate CalledIfPending(ts: seq<Tree>, calls: map<Group, nat>)
      reads this, groups
    {
      calls.Keys == groups &&
      forall g :: g in groups ==> g.calls == calls[g] + if PendingIn(ts, g) then 1 else 0
    }

    /** `_duration`. */
    function Duration(): int
      reads this`values
    {
      Read(values, DURATION)
    }

    // ----- Lifecycle

    method Stop()
      requires timer.player == this && timer.Sound() && timer.Measuring()
      requires playing == !timer.state.Stopped?
      modifies this`playing, this`paused, timer, timer.clock
      ensures timer.player == this && timer.added == old(timer.added) && timer.dispatched == old(timer.dispatched)
      ensures timer.Sound() && timer.Measuring() && !playing && old(timer.clock.now) <= timer.clock.now
      ensures old(Orderly()) ==> Orderly()
      ensures if old(playing) then timer.Valid() && !paused && timer.state.Stopped? && timer.timers == []
              else timer.state == old(timer.state) && paused == old(paused) && timer.dropped == old(timer.dropped)
                   && timer.timers == old(timer.timers) && timer.timerID == old(timer.timerID)
    {
      if playing {
        timer.Stop();
        playing := false;
        paused := false;
      }
    }

    method OnDurationExpired(duration: int)
      requires timer.player == this && timer.Sound() && timer.Measuring()
      requires playing && timer.state.Running? && timer.timerID.Invalid?
      modifies this`playing, this`paused, timer, timer.clock
      ensures timer.player == this && timer.added == old(timer.added) && timer.dispatched == old(timer.dispatched)
      ensures old(Orderly()) ==> Orderly()
      ensures timer.Sound() && timer.Measuring() && timer.timerID.Invalid? && old(timer.clock.now) <= timer.clock.now
      ensures timer.state.Running? ==> timer.Clockwork() == old(timer.Clockwork())
      ensures if duration == Duration() then !playing && !paused && timer.state.Stopped? && timer.timers == []
              else playing && paused == old(paused) && timer.state.Running? && timer.timers == old(timer.timers)
                   && timer.dropped == old(timer.dropped)
    {
      if duration == Duration() {
        Stop();
      }
    }

    /** The first steps of `play`. */
    method StopAndMark()
      requires Valid()
      modifies this`playing, this`paused, this`properties, timer, timer.clock, groups
      ensures Valid() && !playing && properties == MarkAll(old(properties)) && timer.added == old(timer.added)
      ensures timer.dispatched == old(timer.dispatched)
      ensures if old(playing) then timer.timers == [] else timer.dropped == old(timer.dropped)
      ensures forall g :: g in groups ==>
                P.Cleared(g, old(g.applied), old(g.calls), MarkedGroups(old(properties)))
    {
      hide Reached, Lag, MarkAll, MarkedGroups, P.AllGroups, P.AllGroupsOf, Proper;
      Stop();
      GroupsOfAll(properties, groups);
      properties := P.MarkEach(properties, groups);
      MarkedAreRegistered(old(properties), groups);
    }

    /** The rest of `play`: if every property can start, the player does, and applies them all. */
    method StartMarked(started: bool)
      requires Valid() && !playing
      modifies this`playing, this`paused, this`properties, this`ran, this`refreshes, this`notices
      modifies timer, timer.clock, groups
      ensures Valid() && playing == (started && P.CanStartAll(old(properties), values))
      ensures playing ==> timer.state.Running? && timer.elapsed == 0
      ensures timer.dispatched == old(timer.dispatched) && timer.dropped == old(timer.dropped)
      ensures properties == if playing then ApplyAll(old(properties)) else old(properties)
      ensures forall g :: g in groups ==>
                P.Called(g, old(g.applied), old(g.calls), if playing then DueAll(old(properties)) else {})
      ensures ran == old(ran) + if playing then HooksAll(old(properties)) else []
      ensures timer.added ==
              old(timer.added) +
              if playing then TimersFor(HooksAll(old(properties)), Duration(), |old(timer.added)|) else []
      ensures refreshes == old(refreshes) + if playing && Refreshes(old(properties)) then 1 else 0
      ensures notices == old(notices) + if playing && SomeChanged(old(properties)) then 1 else 0
    {
      hide Reached, Lag, ApplyAll, DueAll, HooksAll, P.AllGroups, P.AllGroupsOf, P.CanStartAll, Proper, Ascending;
      hide TimersFor;
      hide Refreshes;
      if P.CanStartAll(properties, values) {
        playing := started;
        if playing {
          ApplyChanges();
          timer.Start();
        }
      }
    }

    /** `play`; `started` is what the kind of player answers when it starts. */
    method Play(started: bool) returns (r: bool)
      requires Valid() && initialized
      modifies this`playing, this`paused, this`properties, this`ran, this`refreshes, this`notices
      modifies timer, timer.clock, groups
      ensures Valid() && r == playing == (started && P.CanStartAll(MarkAll(old(properties)), values))
      ensures playing ==> timer.state.Running? && timer.elapsed == 0
      ensures timer.dispatched == old(timer.dispatched) && (!old(playing) ==> timer.dropped == old(timer.dropped))
      ensures properties == if playing then ApplyAll(MarkAll(old(properties))) else MarkAll(old(properties))
      ensures forall g :: g in groups ==>
                Batched(g, old(g.applied), old(g.calls), MarkedGroups(old(properties)),
                        if playing then DueAll(MarkAll(old(properties))) else {})
      ensures old(Orderly()) ==> Orderly()
      ensures old(Orderly()) && playing ==> CalledIfPending(MarkAll(old(properties)), old(Calls()))
      ensures ran == old(ran) + if playing then HooksAll(MarkAll(old(properties))) else []
      ensures timer.added ==
              old(timer.added) +
              if playing then TimersFor(HooksAll(MarkAll(old(properties))), Duration(), |old(timer.added)|) else []
      ensures refreshes == old(refreshes) + if playing && Refreshes(MarkAll(old(properties))) then 1 else 0
      ensures notices == old(notices) + if playing && old(properties) != [] then 1 else 0
      ensures r <==> started && forall l :: l in LeavesOf(old(properties)) ==> l.check(Read(values, l.variable))
    {
      hide Reached, Lag, MarkAll, ApplyAll, DueAll, HooksAll, MarkedGroups, P.AllGroups, P.AllGroupsOf, P.CanStartAll;
      hide TimersFor;
      hide Proper, AllOrdered, timer.Valid, Ascending;
      StopAndMark();
      StartMarked(started);
      r := playing;
      SomeMarked(old(properties));
      P.MarksCanStart(old(properties), values);
      P.CanStartIff(old(properties), values);
      if old(Orderly()) {
        MarkedAreOwn(old(properties), groups);
        PlayOrder(old(properties), values, old(Down()), Down(), old(playing), playing);
      }
    }

    /** The player has the properties that a first `initialize` registers, flagged or not. */
    ghost predicate HasBase(checkUrl: int -> bool)
      reads this`names, this`properties
    {
      && names == [EXPLICIT_DURATION, TYPE, SOURCE] && |properties| == 3
      && forall i :: 0 <= i < 3 ==> Mark(properties[i]) == BaseLeaf(names[i], checkUrl)
    }

    /** Such a player plays exactly if its source and duration are valid, and ends after its duration, if it has one. */
    method PlayBase(checkUrl: int -> bool, started: bool) returns (r: bool)
      requires Valid() && initialized && HasBase(checkUrl)
      modifies this`playing, this`paused, this`properties, this`ran, this`refreshes, this`notices
      modifies timer, timer.clock, groups
      ensures Valid() && playing == r && values == old(values)
      ensures r <==> started && checkUrl(Read(values, URL)) && Read(values, DURATION) >= 0
      ensures timer.added ==
              old(timer.added) + if r && Read(values, DURATION) > 0
              then [Timer(|old(timer.added)|, Read(values, DURATION), Expire(Read(values, DURATION)))] else []
      ensures refreshes == old(refreshes) + if r then 1 else 0
      ensures ran == old(ran) + if r then [APPLY_DURATION] else []
    {
      hide Reached, Lag, Proper, P.AllGroups, AllOrdered, P.CanStartAll, TimersFor, T.Due, MarkedGroups, P.Called;
      hide Batched;
      BaseFacts(properties, names, values, checkUrl);
      TimersForOne(Duration(), |timer.added|);
      r := Play(started);
    }

    /**
     Setting one of those properties: a valid value that differs is taken; while playing a new duration
     adds its timer if it is positive, and a new source or type refreshes the player.
     */
    method SetBase(checkUrl: int -> bool, name: int, v: int) returns (r: bool)
      requires Valid() && HasBase(checkUrl) && name in {SOURCE, TYPE, EXPLICIT_DURATION}
      modifies this`playing, this`paused, this`properties, this`values, this`ran, this`refreshes, this`notices
      modifies timer, timer.clock, groups
      ensures Valid() && HasBase(checkUrl)
      ensures r == ((name == SOURCE ==> checkUrl(v)) && (name == EXPLICIT_DURATION ==> v >= 0))
      ensures var x := if name == SOURCE then URL else if name == TYPE then KIND else DURATION;
              var live := r && Read(old(values), x) != v && old(playing);
              && values == (if r && Read(old(values), x) != v then old(values)[x := v] else old(values))
              && timer.added == old(timer.added) + (if live && name == EXPLICIT_DURATION && v > 0
                                                    then [Timer(|old(timer.added)|, v, Expire(v))] else [])
              && refreshes == old(refreshes) + (if live && name != EXPLICIT_DURATION then 1 else 0)
              && notices == old(notices) + (if live then 1 else 0)
    {
      hide Reached, Lag, Proper, P.AllGroups, AllOrdered, TimersFor, Touched, Orderly, CalledIfPending, Batched;
      hide timer.OnlyFired, timer.Valid;
      var i := Find(name);
      var t := properties[i];
      MarkedLeaf(t, BaseLeaf(name, checkUrl));
      BaseAssigned(t, name, values, v, checkUrl);
      r := SetProperty(name, v);
      TimersForOne(Duration(), old(|timer.added|));
      TimersForMore([], [], Duration(), old(|timer.added|));
    }

    /** The part of `pause` that resumes: what is flagged is applied, and the timeline goes on. */
    method Resume()
      requires Valid() && playing && paused
      modifies this`playing, this`paused, this`properties, this`ran, this`refreshes, this`notices
      modifies timer, timer.clock, groups
      ensures Valid() && !paused
      ensures properties == ApplyAll(old(properties)) && ran == old(ran) + HooksAll(old(properties))
      ensures playing ==> timer.NobodyAsked(|old(timer.dispatched)|, |timer.dispatched|)
      ensures !playing ==>
                && timer.dispatched != old(timer.dispatched) && timer.dispatched != []
                && timer.NobodyAsked(|old(timer.dispatched)|, |timer.dispatched| - 1)
                && Asks(timer.dispatched[|timer.dispatched| - 1].timer, Duration())
      ensures playing ==> timer.dropped == old(timer.dropped) && timer.elapsed == old(timer.elapsed)
      ensures forall g :: g in groups ==> P.Called(g, old(g.applied), old(g.calls), DueAll(old(properties)))
      ensures timer.added == old(timer.added) + TimersFor(HooksAll(old(properties)), Duration(), |old(timer.added)|)
    {
      hide Reached, Lag, ApplyAll, DueAll, HooksAll, P.AllGroups, P.AllGroupsOf, Proper, Ascending, TimersFor;
      ApplyChanges();
      timer.Unpause();
      paused := false;
    }

    /** `pause`. */
    method Pause(pause: bool)
      requires Valid()
      modifies this`playing, this`paused, this`properties, this`ran, this`refreshes, this`notices
      modifies timer, timer.clock, groups
      ensures Valid() && (playing ==> old(playing) && paused == pause)
      ensures old(playing) && (pause || !old(paused)) ==> playing
      ensures old(playing) && playing ==> timer.NobodyAsked(|old(timer.dispatched)|, |timer.dispatched|)
      ensures !playing && old(playing) ==>
                && timer.dispatched != old(timer.dispatched) && timer.dispatched != []
                && Asks(timer.dispatched[|timer.dispatched| - 1].timer, Duration())
      ensures playing ==> timer.dropped == old(timer.dropped)
      ensures !old(playing) || old(paused) == pause ==> unchanged(timer) && unchanged(timer.clock)
      ensures pause ==> timer.dispatched == old(timer.dispatched)
      ensures playing && pause && !old(paused) ==>
                && timer.timers == old(timer.timers) && timer.startTimer <= timer.clock.now
                && timer.elapsed == old(timer.elapsed) + (timer.clock.now - timer.startTimer) / 1000
      ensures playing && !pause && old(paused) ==> timer.elapsed == old(timer.elapsed)
      ensures properties == if old(playing) && old(paused) && !pause then ApplyAll(old(properties)) else old(properties)
      ensures forall g :: g in groups ==>
                P.Called(g, old(g.applied), old(g.calls),
                         if old(playing) && old(paused) && !pause then DueAll(old(properties)) else {})
      ensures ran == old(ran) + if old(playing) && old(paused) && !pause then HooksAll(old(properties)) else []
      ensures timer.added == old(timer.added) +
                             if old(playing) && old(paused) && !pause
                             then TimersFor(HooksAll(old(properties)), Duration(), |old(timer.added)|) else []
      ensures old(Orderly()) ==> Orderly() && Calls() == old(Calls())
    {
      hide Reached, Lag, ApplyAll, DueAll, HooksAll, P.AllGroups, P.AllGroupsOf, Proper, AllOrdered, Ascending;
      hide TimersFor;
      if playing && paused != pause {
        if !pause {
          Resume();
        } else {
          timer.Pause();
          paused := pause;
        }
      }
      if old(Orderly()) {
        PauseOrder(old(properties), values, old(Down()), Down(), old(playing), playing);
      }
    }

    /** `abort`, for the players that abort by stopping. */
    method Abort()
      requires Valid() && initialized
      modifies this`playing, this`paused, timer, timer.clock
      ensures Valid() && !playing
      ensures old(Orderly()) ==> Orderly()
    {
      Stop();
    }

    /** `finalize`. */
    method Finalize()
      requires Valid()
      modifies this`playing, this`paused, this`initialized, timer, timer.clock
      ensures Valid() && !initialized && (old(initialized) ==> !playing)
      ensures old(Orderly()) ==> Orderly()
    {
      if initialized {
        Stop();
        initialized := false;
      }
    }

    /** `createTimer`. */
    method CreateTimer(ms: nat, stops: bool)
      requires Valid()
      modifies this`playing, this`paused, timer, timer.clock
      ensures Valid() && timer.added == old(timer.added) + [Timer(|old(timer.added)|, ms, Call(stops))]
      ensures timer.OnlyFired() && (playing ==> old(playing) && paused == old(paused))
      ensures old(Orderly()) ==> Orderly()
    {
      var _ := timer.AddTimer(ms, Call(stops));
    }

    /** The system timer of the player's timeline expires. */
    method SystemTimerExpires()
      requires Valid() && timer.timerID.Waiting? && timer.timerID.at <= timer.clock.now
      modifies this`playing, this`paused, timer, timer.clock
      ensures Valid() && (playing ==> old(playing) && paused == old(paused))
      ensures |timer.dispatched| > old(|timer.dispatched|)
      ensures timer.dispatched[old(|timer.dispatched|)].timer == old(timer.timers[0])
      ensures old(timer.timers[0]).callback.Expire? && old(timer.timers[0]).callback.duration == Duration() ==> !playing
      ensures old(timer.timers[0]).callback.Call? && old(timer.timers[0]).callback.stops ==> !playing
      ensures timer.OnlyFired()
      ensures old(Orderly()) ==> Orderly()
    {
      var _ := timer.OnExpired();
    }

    // ----- Properties

    /** `setProperty`. */
    method SetProperty(name: int, v: int) returns (r: bool)
      requires Valid()
      modifies this`playing, this`paused, this`properties, this`values, this`ran, this`refreshes, this`notices
      modifies timer, timer.clock, groups
      ensures Valid() && (playing ==> old(playing) && paused == old(paused))
      ensures name !in names ==> !r && properties == old(properties) && values == old(values)
      ensures forall i :: 0 <= i < |names| && names[i] == name ==> IsSet(i, v, r)
      ensures old(Orderly()) ==> Orderly()
      ensures old(Orderly()) && old(playing) ==>
                forall i :: 0 <= i < |names| && names[i] == name ==>
                  CalledIfPending([T.Assign(old(properties)[i], old(values), v).tree], old(Calls()))
    {
      hide Reached, Lag, P.AllGroups, P.AllGroupsOf, Proper, T.Assign, T.Apply, T.Due, Touched, AllOrdered;
      hide TimersFor;
      hide PendingIn, Hooks, Wants;
      var i := Find(name);
      if i == |names| {
        return false;
      }
      r := Set(i, v);
      if old(Orderly()) {
        TouchedAreOwn(old(properties)[i], old(values), v);
        SetOrder(old(properties), old(values), i, v, old(playing), old(Down()), Down());
        if old(playing) {
          SetIsDue(old(properties), old(values), i, v, old(Down()));
        }
      }
    }

    /** What `setProperty` does with the `i`th property: it is applied if the assignment returns true while playing. */
    twostate predicate IsSet(i: nat, v: int, r: bool)
      requires i < |old(properties)|
      reads this, groups, timer, timer.clock, timer.player
    {
      var t := old(properties)[i];
      var result := T.Assign(t, old(values), v);
      var live := old(playing) && result.outcome == Taken;
      && r == (result.outcome != Refused)
      && values == result.store
      && properties == old(properties)[i := if live then T.Apply(result.tree) else result.tree]
      && ran == old(ran) + (if live then Hooks(result.tree) else [])
      && notices == old(notices) + (if live then 1 else 0)
      && refreshes == old(refreshes) + (if live && result.tree.changed && Wants(result.tree) then 1 else 0)
      && groups == old(groups) && timer.OnlyFired()
      && timer.added == old(timer.added) +
                        (if live then TimersFor(Hooks(result.tree), Duration(), |old(timer.added)|) else [])
      && (!live ==> unchanged(timer) && unchanged(timer.clock) && playing == old(playing) && paused == old(paused))
      && forall g :: g in groups ==>
           Batched(g, old(g.applied), old(g.calls), Touched(t, old(values), v),
                   DueAfter(t, old(values), v, old(playing)))
    }

    method Set(i: nat, v: int) returns (r: bool)
      requires Valid() && i < |properties|
      modifies this`playing, this`paused, this`properties, this`values, this`ran, this`refreshes, this`notices
      modifies timer, timer.clock, groups
      ensures Valid() && (playing ==> old(playing) && paused == old(paused))
      ensures IsSet(i, v, r)
    {
      hide Reached, Lag, P.AllGroups, P.AllGroupsOf, Proper, T.Assign, T.Apply, T.Due, Touched, Hooks, Wants;
      hide TimersFor;
      hide Ascending, timer.Valid;
      hide Registered;
      MemberIsRegistered(i);
      var t, outcome;
      t, values, outcome := P.Assign(properties[i], values, v, groups);
      AssignKeepsShape(properties[i], old(values), v);
      ApplyKeepsShape(t);
      r := outcome != Refused;
      if outcome == Taken && playing {
        t := ApplyNow(t);
      }
      Put(i, t);
    }

    lemma MemberIsRegistered(i: nat)
      requires Registered() && i < |properties|
      ensures Proper(properties[i]) && P.AllGroups(properties[i]) <= groups
    {
    }

    method Put(i: nat, t: Tree)
      requires Registered() && i < |properties| && Proper(t) && P.AllGroups(t) <= groups
      modifies this`properties
      ensures Registered() && properties == old(properties)[i := t]
    {
      hide Ascending, Proper, P.AllGroups;
      properties := properties[i := t];
    }

    /** A property is applied on its own, and the player is told. */
    method ApplyNow(t: Tree) returns (after: Tree)
      requires timer.Valid() && timer.Owned() && timer.player == this && P.AllGroups(t) <= groups
      modifies this`playing, this`paused, this`ran, this`refreshes, this`notices, timer, timer.clock, groups
      ensures timer.Valid() && timer.OnlyFired()
      ensures after == T.Apply(t) && ran == old(ran) + Hooks(t)
      ensures refreshes == old(refreshes) + (if t.changed && Wants(t) then 1 else 0) && notices == old(notices) + 1
      ensures timer.added == old(timer.added) + TimersFor(Hooks(t), Duration(), |old(timer.added)|)
      ensures forall g :: g in groups ==> P.Called(g, old(g.applied), old(g.calls), Due(t))
    {
      hide Reached, Lag, T.Apply, T.Due, Hooks, Wants, P.AllGroups;
      hide TimersFor;
      var refresh;
      after, refresh := ApplyProperty(t);
      Changed(refresh);
    }

    /** The property under each registered name. */
    ghost function Registry(): map<int, Tree>
      requires Registered()
      reads this`names, this`properties, this`groups
    {
      RegistryOf(names, properties)
    }

    /** `addProperty`: a second property under a name makes a composite with the first. */
    method AddProperty(name: int, t: Tree)
      requires Valid() && Proper(t)
      modifies this`names, this`properties, this`groups
      ensures Valid() && groups == old(groups) + P.AllGroups(t)
      ensures Registry() == Added(old(Registry()), name, t)
      ensures forall n :: n in names <==> n in old(names) || n == name
      ensures name !in old(names) ==> forall u :: u in properties ==> u in old(properties) || u == t
      ensures (old(Orderly()) && Unbound(old(properties), VariablesIn(t))
               && InOrder(Registry()[name], values, Down(), playing)) ==> Orderly()
    {
      hide Reached, Lag, P.AllGroups, P.AllGroupsOf, Proper, InOrder, AllOrdered, RegistryOf, Ascending, Unbound;
      hide Added;
      ghost var ts, down := properties, Down();
      var i := Find(name);
      if i < |names| {
        Combine(i, name, t);
      } else {
        i := Place(name);
        PutIn(i, name, t);
      }
      if AllOrdered(ts, values, down, playing) && Unbound(ts, VariablesIn(t))
         && InOrder(properties[i], values, Down(), playing) {
        AddedInOrder(ts, values, i, t, properties, down, Down(), playing);
      }
    }

    method Combine(i: nat, name: int, t: Tree)
      requires Valid() && Proper(t) && i < |names| && names[i] == name
      modifies this`names, this`properties, this`groups
      ensures Valid() && groups == old(groups) + P.AllGroups(t) && names == old(names)
      ensures properties == old(properties)[i := Node([old(properties)[i], t], true)]
      ensures Registry() == Added(old(Registry()), name, t) && Registry()[name] == properties[i]
    {
      hide Reached, Lag, P.AllGroups, P.AllGroupsOf, Proper, RegistryOf, Ascending;
      PairIsProper(properties[i], t);
      Replaced(names, properties, i, Node([properties[i], t], true));
      properties := properties[i := Node([properties[i], t], true)];
      groups := groups + P.AllGroups(t);
    }

    method PutIn(i: nat, name: int, t: Tree)
      requires Valid() && Proper(t) && i <= |names| && name !in names
      requires (forall j :: 0 <= j < i ==> names[j] < name) && forall j :: i <= j < |names| ==> name < names[j]
      modifies this`names, this`properties, this`groups
      ensures Valid() && groups == old(groups) + P.AllGroups(t)
      ensures names == old(names)[..i] + [name] + old(names)[i..]
      ensures properties == old(properties)[..i] + [t] + old(properties)[i..]
      ensures forall n :: n in names <==> n in old(names) || n == name
      ensures forall u :: u in properties ==> u in old(properties) || u == t
      ensures Registry() == Added(old(Registry()), name, t) && Registry()[name] == properties[i]
    {
      hide Reached, Lag, P.AllGroups, P.AllGroupsOf, Proper, RegistryOf, Ascending;
      Inserted(names, properties, i, name, t);
      SameNames(names, i, name);
      names, properties := names[..i] + [name] + names[i..], properties[..i] + [t] + properties[i..];
      groups := groups + P.AllGroups(t);
    }

    /** Where a new name goes. */
    method Place(name: int) returns (i: nat)
      requires Registered() && name !in names
      ensures i <= |names|
      ensures (forall j :: 0 <= j < i ==> names[j] < name) && forall j :: i <= j < |names| ==> name < names[j]
    {
      i := 0;
      while i < |names| && names[i] < name
        invariant i <= |names| && forall j :: 0 <= j < i ==> names[j] < name
      {
        i := i + 1;
      }
    }

    /** No property is registered under the names, or bound to the variables, of every player. */
    ghost predicate IsFirst()
      reads this`names, this`properties
    {
      && SOURCE !in names && TYPE !in names && EXPLICIT_DURATION !in names
      && Unbound(properties, {URL, KIND, DURATION})
    }

    /**
     `initialize`, with the properties of every player; `ready` is what `init` answers, which is asked
     only the first time.
     */
    method Initialize(ready: bool, checkUrl: int -> bool) returns (r: bool)
      requires Valid()
      modifies this`names, this`properties, this`groups, this`initialized
      ensures Valid() && r == initialized == (old(initialized) || ready)
      ensures Registry() == if r then WithBase(old(Registry()), checkUrl) else old(Registry())
      ensures groups == old(groups)
      ensures old(Orderly() && IsFirst()) && !playing ==> Orderly()
    {
      hide Reached, Lag, AllOrdered, RegistryOf, Ascending, Proper, P.AllGroups, Unbound, Added, timer.Valid;
      hide BaseLeaf;
      r := initialized || ready;
      BaseVariables(checkUrl);
      UnboundFewer(properties, {URL, KIND, DURATION}, {URL});
      UnboundFewer(properties, {URL, KIND, DURATION}, {KIND, DURATION});
      if r {
        AddBase(SOURCE, checkUrl, {KIND, DURATION});
        UnboundFewer(properties, {KIND, DURATION}, {KIND});
        UnboundFewer(properties, {KIND, DURATION}, {DURATION});
        AddBase(TYPE, checkUrl, {DURATION});
        AddBase(EXPLICIT_DURATION, checkUrl, {});
        initialized := true;
      }
    }

    /** One of those properties, when properties bound to other variables are still to come. */
    method AddBase(name: int, checkUrl: int -> bool, ghost others: set<int>)
      requires Valid()
      modifies this`names, this`properties, this`groups
      ensures Valid() && Registry() == Added(old(Registry()), name, BaseLeaf(name, checkUrl)) && groups == old(groups)
      ensures forall n :: n in names <==> n in old(names) || n == name
      ensures (name !in old(names) && Unbound(old(properties), others)
               && BaseLeaf(name, checkUrl).variable !in others) ==> Unbound(properties, others)
      ensures (old(Orderly()) && !playing && name !in old(names)
               && Unbound(old(properties), {BaseLeaf(name, checkUrl).variable})) ==> Orderly()
    {
      hide Reached, Lag, InOrder, AllOrdered, RegistryOf, Ascending;
      var leaf := BaseLeaf(name, checkUrl);
      NewLeafInOrder(leaf, values, Down());
      ghost var down := Down();
      AddProperty(name, leaf);
      assert groups == old(groups);
      assert Down() == down;
    }

    /** A property registered twice for one variable is set: the variable changes, and the call does no more. */
    method SetShared(name: int, ghost first: Tree, ghost second: Tree, v: int) returns (r: bool)
      requires Valid() && name in Registry() && Registry()[name] == Node([first, second], true)
      requires first.Leaf? && second.Leaf? && first.variable == second.variable
      requires Takes(first, values, v) && second.check(v)
      modifies this`playing, this`paused, this`properties, this`values, this`ran, this`refreshes, this`notices
      modifies timer, timer.clock, groups
      ensures Valid() && r && Read(values, first.variable) == v && ran == old(ran) && notices == old(notices)
      ensures unchanged(timer) && playing == old(playing) && paused == old(paused)
    {
      hide Reached, Lag, AllOrdered, RegistryOf, Proper, P.AllGroups, T.Apply, T.Assign, Touched, Hooks, Wants;
      hide timer.Valid, InOrder, PendingIn;
      SharedAssignment(first, second, values, v);
      var i := Find(name);
      RegistryAt(names, properties, i);
      r := SetProperty(name, v);
    }

    /**
     A new explicit duration after a second `initialize`, for a player that had registered it once: it
     is accepted, and no timer is added for it.
     */
    method SetDurationAgain(checkUrl: int -> bool, v: int) returns (r: bool)
      requires Valid() && initialized && EXPLICIT_DURATION in Registry()
      requires var t := Registry()[EXPLICIT_DURATION];
               t.Leaf? && t.variable == DURATION && Takes(t, values, v) && v >= 0
      modifies this`names, this`properties, this`groups, this`initialized
      modifies this`playing, this`paused, this`values, this`ran, this`refreshes, this`notices
      modifies timer, timer.clock, groups
      ensures Valid() && r && Duration() == v && ran == old(ran) && notices == old(notices)
      ensures unchanged(timer) && playing == old(playing) && paused == old(paused)
    {
      hide Reached, Lag, AllOrdered, RegistryOf, Ascending, Proper, P.AllGroups, timer.Valid, InOrder;
      ghost var t, leaf := Registry()[EXPLICIT_DURATION], BaseLeaf(EXPLICIT_DURATION, checkUrl);
      var _ := Initialize(true, checkUrl);
      assert Registry()[EXPLICIT_DURATION] == Node([t, leaf], true);
      r := SetShared(EXPLICIT_DURATION, t, leaf, v);
    }

    /** `getProperty`: the index of the name, or the number of names. */
    method Find(name: int) returns (i: nat)
      ensures i <= |names| && (i < |names| ==> names[i] == name) && (i == |names| ==> name !in names)
    {
      i := 0;
      while i < |names| && names[i] != name
        invariant i <= |names| && name !in names[..i]
      {
        i := i + 1;
      }
    }

    /** `applyChanges`. */
    method ApplyChanges()
      requires timer.Valid() && timer.Owned() && timer.player == this && Registered()
      modifies this`playing, this`paused, this`properties, this`ran, this`refreshes, this`notices
      modifies timer, timer.clock, groups
      ensures timer.Valid() && timer.OnlyFired() && Registered()
      ensures properties == ApplyAll(old(properties)) && ran == old(ran) + HooksAll(old(properties))
      ensures refreshes == old(refreshes) + if Refreshes(old(properties)) then 1 else 0
      ensures notices == old(notices) + if SomeChanged(old(properties)) then 1 else 0
      ensures timer.added == old(timer.added) + TimersFor(HooksAll(old(properties)), Duration(), |old(timer.added)|)
      ensures forall g :: g in groups ==> P.Called(g, old(g.applied), old(g.calls), DueAll(old(properties)))
    {
      hide Reached, Lag, ApplyAll, HooksAll, DueAll, Refreshes;
      hide TimersFor;
      GroupsOfAll(properties, groups);
      var changed := SomeChanged(properties);
      if !changed {
        NoneRefreshes(properties);
      }
      var refresh;
      properties, refresh := ApplyEach(properties);
      AppliedAreRegistered(old(properties), groups);
      if changed {
        Changed(refresh);
      }
    }

    /** `apply`: the player is refreshed if it must be, and told. */
    method Changed(needRefresh: bool)
      modifies this`refreshes, this`notices
      ensures refreshes == old(refreshes) + (if needRefresh then 1 else 0) && notices == old(notices) + 1
    {
      if needRefresh {
        refreshes := refreshes + 1;
      }
      notices := notices + 1;
    }

    /** `Property::apply`: nothing unless the property is flagged. */
    method ApplyProperty(t: Tree) returns (after: Tree, needRefresh: bool)
      requires timer.Valid() && timer.Owned() && timer.player == this && P.AllGroups(t) <= groups
      modifies this`playing, this`paused, this`ran, timer, timer.clock, groups
      ensures timer.Valid() && timer.OnlyFired()
      ensures after == T.Apply(t) && needRefresh == (t.changed && Wants(t)) && ran == old(ran) + Hooks(t)
      ensures timer.added == old(timer.added) + TimersFor(Hooks(t), Duration(), |old(timer.added)|)
      ensures forall g :: g in groups ==> P.Called(g, old(g.applied), old(g.calls), Due(t))
      decreases t, 1
    {
      hide Reached, Lag, TimersFor;
      if !t.changed {
        TimersForMore([], [], Duration(), |timer.added|);
        return t, false;
      }
      match t
      case Leaf(variable, _, check, hook, refresh) =>
        RunHook(hook);
        P.ApplyGroup(hook, groups);
        after, needRefresh := Leaf(variable, false, check, hook, refresh), refresh;
      case Node(members, _) =>
        var trees;
        var refreshed;
        trees, refreshed := ApplyEach(members);
        after, needRefresh := Node(trees, false), Wants(t);
    }

    /** The loops of `applyChanges` over the properties and of a composite over its members. */
    method ApplyEach(ts: seq<Tree>) returns (after: seq<Tree>, needRefresh: bool)
      requires timer.Valid() && timer.Owned() && timer.player == this && P.AllGroupsOf(ts) <= groups
      modifies this`playing, this`paused, this`ran, timer, timer.clock, groups
      ensures timer.Valid() && timer.OnlyFired()
      ensures after == ApplyAll(ts) && needRefresh == Refreshes(ts) && ran == old(ran) + HooksAll(ts)
      ensures timer.added == old(timer.added) + TimersFor(HooksAll(ts), Duration(), |old(timer.added)|)
      ensures forall g :: g in groups ==> P.Called(g, old(g.applied), old(g.calls), DueAll(ts))
      decreases ts, 0
    {
      hide Reached, Lag, P.Applied, T.Apply, ApplyAll, Due, DueAll, Hooks, HooksAll, Wants, Refreshes, TimersFor;
      after, needRefresh := [], false;
      ghost var due: set<Group> := {};
      ghost var hooks: seq<int> := [];
      P.NothingApplied(ts);
      TimersForMore([], [], Duration(), |timer.added|);
      var i := 0;
      while i < |ts|
        invariant i <= |ts| && |after| == i && ran == old(ran) + hooks
        invariant timer.added == old(timer.added) + TimersFor(hooks, Duration(), |old(timer.added)|)
        invariant timer.Valid() && timer.Owned() && timer.OnlyFired()
        invariant P.Applied(ts, after, hooks, needRefresh, due)
        invariant forall g :: g in groups ==> P.Called(g, old(g.applied), old(g.calls), due)
      {
        P.MemberGroups(ts, i);
        var t, refresh := ApplyProperty(ts[i]);
        P.ApplyNext(ts, after, hooks, needRefresh, due);
        TimersForMore(hooks, Hooks(ts[i]), Duration(), |old(timer.added)|);
        after, needRefresh, hooks, due := after + [t], needRefresh || refresh, hooks + Hooks(ts[i]), due + Due(ts[i]);
        i := i + 1;
      }
      P.AllApplied(ts, after, hooks, needRefresh, due);
    }

    /** The function of its own that an applied property runs. */
    method RunHook(hook: Hook)
      requires timer.Valid() && timer.Owned() && timer.player == this
      modifies this`playing, this`paused, this`ran, timer, timer.clock
      ensures timer.Valid() && timer.OnlyFired()
      ensures ran == old(ran) + if hook.Own? then [hook.name] else []
      ensures timer.added == old(timer.added) +
                             TimersFor(if hook.Own? then [hook.name] else [], Duration(), |old(timer.added)|)
      ensures hook == Own(APPLY_DURATION) && Duration() > 0 ==>
                timer.added == old(timer.added) + [Timer(|old(timer.added)|, Duration(), Expire(Duration()))]
    {
      hide Reached, Lag;
      if hook.Own? {
        ran := ran + [hook.name];
        if hook.name == APPLY_DURATION {
          ApplyDuration();
        }
      }
    }

    method ApplyDuration()
      requires timer.Valid() && timer.Owned() && timer.player == this
      modifies this`playing, this`paused, timer, timer.clock
      ensures timer.Valid() && timer.OnlyFired()
      ensures timer.added == old(timer.added) + if Duration() > 0
              then [Timer(|old(timer.added)|, Duration(), Expire(Duration()))] else []
    {
      if Duration() > 0 {
        var _ := timer.AddTimer(Duration(), Expire(Duration()));
      }
    }
  }

  lemma BaseIsBound(registry: map<int, Tree>, checkUrl: int -> bool, name: int)
    requires name in {SOURCE, TYPE, EXPLICIT_DURATION}
    ensures var t, leaf := WithBase(registry, checkUrl)[name], BaseLeaf(name, checkUrl);
            && t == (if name in registry then Node([registry[name], leaf], true) else leaf)
            && leaf.variable in Variables(t)
  {
    var leaf := BaseLeaf(name, checkUrl);
    assert Leaves(leaf) == [leaf];
    assert leaf.variable in VariablesIn(leaf) by {
      assert Variables(leaf)[0] == leaf.variable;
    }
    if name in registry {
      PairVariables(registry[name], leaf);
      assert leaf.variable in VariablesIn(Node([registry[name], leaf], true));
    }
  }

  lemma TimersForOne(duration: int, made: nat)
    ensures TimersFor([APPLY_DURATION], duration, made) ==
            if duration > 0 then [Timer(made, duration, Expire(duration))] else []
  {
  }

  lemma LeafFirst(a: Tree, rest: seq<Tree>)
    requires a.Leaf?
    ensures MarkAll([a] + rest) == [Mark(a)] + MarkAll(rest) && HooksAll([a] + rest) == Hooks(a) + HooksAll(rest)
    ensures Refreshes([a] + rest) <==> (a.changed && a.refresh) || Refreshes(rest)
    ensures LeavesOf([a] + rest) == [a] + LeavesOf(rest)
    ensures rest == [] ==> MarkAll(rest) == [] && HooksAll(rest) == [] && !Refreshes(rest) && LeavesOf(rest) == []
  {
    assert ([a] + rest)[1..] == rest;
  }

  /** What the definitions say of a list of three leaves. */
  lemma ThreeLeaves(a: Tree, b: Tree, c: Tree)
    requires a.Leaf? && b.Leaf? && c.Leaf?
    ensures MarkAll([a, b, c]) == [Mark(a), Mark(b), Mark(c)]
    ensures HooksAll([a, b, c]) == Hooks(a) + Hooks(b) + Hooks(c)
    ensures Refreshes([a, b, c]) <==> (a.changed && a.refresh) || (b.changed && b.refresh) || (c.changed && c.refresh)
    ensures LeavesOf([a, b, c]) == [a, b, c]
  {
    hide MarkAll, HooksAll, Hooks, Refreshes, LeavesOf;
    LeafFirst(a, [b, c]);
    LeafFirst(b, [c]);
    LeafFirst(c, []);
    assert [a] + [b, c] == [a, b, c] && [b] + [c] == [b, c] && [c] + [] == [c];
    assert Hooks(a) + (Hooks(b) + Hooks(c)) == Hooks(a) + Hooks(b) + Hooks(c);
  }

  lemma MarkedLeaf(t: Tree, leaf: Tree)
    requires Mark(t) == leaf && leaf.Leaf?
    ensures t.Leaf? && leaf.changed && t.check == leaf.check && t.variable == leaf.variable
    ensures Hooks(leaf) == if leaf.hook.Own? then [leaf.hook.name] else []
  {
  }

  /** What an assignment makes of one of those properties, and what applying it then does. */
  lemma BaseAssigned(t: Tree, name: int, s: Store, v: int, checkUrl: int -> bool)
    requires name in {SOURCE, TYPE, EXPLICIT_DURATION} && Mark(t) == BaseLeaf(name, checkUrl)
    ensures var x := if name == SOURCE then URL else if name == TYPE then KIND else DURATION;
            var fits := (name == SOURCE ==> checkUrl(v)) && (name == EXPLICIT_DURATION ==> v >= 0);
            var after := T.Assign(t, s, v);
            && after.outcome == (if !fits then Refused else if Read(s, x) == v then Same else Taken)
            && after.store == (if after.outcome == Taken then s[x := v] else s)
            && Mark(after.tree) == Mark(t) && Mark(T.Apply(after.tree)) == Mark(t)
            && (after.outcome == Taken ==>
                  && after.tree.changed && Wants(after.tree) == (name != EXPLICIT_DURATION)
                  && Hooks(after.tree) == (if name == EXPLICIT_DURATION then [APPLY_DURATION] else []))
  {
  }

  lemma BaseHooks(checkUrl: int -> bool)
    ensures BaseLeaf(EXPLICIT_DURATION, checkUrl).hook == Own(APPLY_DURATION)
    ensures BaseLeaf(TYPE, checkUrl).hook == Nothing && BaseLeaf(SOURCE, checkUrl).hook == Nothing
    ensures BaseLeaf(SOURCE, checkUrl).refresh
  {
  }

  lemma BaseChecks(checkUrl: int -> bool, url: int, kind: int, duration: int)
    ensures BaseLeaf(SOURCE, checkUrl).check(url) == checkUrl(url) && BaseLeaf(TYPE, checkUrl).check(kind)
    ensures BaseLeaf(EXPLICIT_DURATION, checkUrl).check(duration) <==> duration >= 0
  {
  }

  lemma BaseFacts(ts: seq<Tree>, names: seq<int>, s: Store, checkUrl: int -> bool)
    requires names == [EXPLICIT_DURATION, TYPE, SOURCE] && |ts| == 3
    requires forall i :: 0 <= i < 3 ==> Mark(ts[i]) == BaseLeaf(names[i], checkUrl)
    ensures HooksAll(MarkAll(ts)) == [APPLY_DURATION] && Refreshes(MarkAll(ts))
    ensures (forall l :: l in LeavesOf(ts) ==> l.check(Read(s, l.variable))) <==>
            checkUrl(Read(s, URL)) && Read(s, DURATION) >= 0
  {
    hide MarkAll, HooksAll, Hooks, Refreshes, LeavesOf, Leaves, BaseLeaf, Mark;
    var a, b, c := ts[0], ts[1], ts[2];
    assert ts == [a, b, c];
    MarkedLeaf(a, BaseLeaf(EXPLICIT_DURATION, checkUrl));
    MarkedLeaf(b, BaseLeaf(TYPE, checkUrl));
    MarkedLeaf(c, BaseLeaf(SOURCE, checkUrl));
    ThreeLeaves(a, b, c);
    ThreeLeaves(Mark(a), Mark(b), Mark(c));
    BaseHooks(checkUrl);
    BaseVariables(checkUrl);
    BaseChecks(checkUrl, Read(s, URL), Read(s, KIND), Read(s, DURATION));
    OfThree(a, b, c, s);
  }

  lemma OfThree(a: Tree, b: Tree, c: Tree, s: Store)
    requires a.Leaf? && b.Leaf? && c.Leaf?
    ensures (forall l :: l in [a, b, c] ==> l.Leaf? && l.check(Read(s, l.variable))) <==>
            a.check(Read(s, a.variable)) && b.check(Read(s, b.variable)) && c.check(Read(s, c.variable))
  {
    assert a in [a, b, c] && b in [a, b, c] && c in [a, b, c];
  }

  lemma BaseNames(names: seq<int>, ts: seq<Tree>, checkUrl: int -> bool)
    requires Ascending(names) && |names| == |ts| && RegistryOf(names, ts) == WithBase(map[], checkUrl)
    ensures names == [EXPLICIT_DURATION, TYPE, SOURCE]
    ensures forall i :: 0 <= i < 3 ==> ts[i] == BaseLeaf(names[i], checkUrl)
  {
    hide BaseLeaf, Variables, Ascending;
    var r := RegistryOf(names, ts);
    assert forall n :: n in names <==> n == EXPLICIT_DURATION || n == TYPE || n == SOURCE by {
      assert forall n :: n in r <==> n in names;
    }
    AscendingThree(names, EXPLICIT_DURATION, TYPE, SOURCE);
    forall i | 0 <= i < 3
      ensures ts[i] == BaseLeaf(names[i], checkUrl)
    {
      RegistryAt(names, ts, i);
      BaseIsBound(map[], checkUrl, names[i]);
    }
  }

  lemma AscendingThree(names: seq<int>, a: int, b: int, c: int)
    requires Ascending(names) && a < b < c && forall n :: n in names <==> n == a || n == b || n == c
    ensures names == [a, b, c]
  {
    hide Ascending;
    LeastIsFirst(names, a);
    var rest := names[1..];
    RestAscends(names);
    LeastIsFirst(rest, b);
    RestAscends(rest);
    OnlyOne(rest[1..], c);
    assert rest == [b] + rest[1..] && names == [a] + rest;
  }

  lemma OnlyOne(names: seq<int>, c: int)
    requires Ascending(names) && forall n :: n in names <==> n == c
    ensures names == [c]
  {
    assert c in names;
    var k := |names| - 1;
    assert names[0] in names && names[k] in names;
  }

  lemma LeastIsFirst(names: seq<int>, a: int)
    requires Ascending(names) && a in names && forall n :: n in names ==> a <= n
    ensures names != [] && names[0] == a
  {
    var i :| 0 <= i < |names| && names[i] == a;
    assert names[0] in names && names[0] <= names[i];
  }

  lemma RestAscends(names: seq<int>)
    requires Ascending(names) && names != []
    ensures Ascending(names[1..]) && forall n :: n in names[1..] <==> n in names && n != names[0]
  {
    assert names == [names[0]] + names[1..];
    assert forall i :: 1 <= i < |names| ==> names[0] < names[i];
  }

  /** A player that is made, initialised and played: whether it plays, and the timer that ends it. */
  method FirstPlay(clock: Clock, values: Store, checkUrl: int -> bool, started: bool)
      returns (player: Player, r: bool)
    modifies clock
    ensures fresh(player) && player.Valid() && player.playing == r
    ensures r <==> started && checkUrl(Read(values, URL)) && Read(values, DURATION) >= 0
    ensures player.timer.added == if r && Read(values, DURATION) > 0
            then [Timer(0, Read(values, DURATION), Expire(Read(values, DURATION)))] else []
  {
    hide Reached, Lag, Proper, P.AllGroups, AllOrdered, WithBase, Ascending, RegistryOf;
    player := new Player(clock, values);
    assert player.Registry() == map[];
    var ready := player.Initialize(true, checkUrl);
    BaseNames(player.names, player.properties, checkUrl);
    r := player.PlayBase(checkUrl, started);
  }

  /**
   The registry that a second `initialize` leaves: no assignment to a property of every player ever
   returns true, so that none is applied by the assignment; a flagged one waits for a later batch.
   */
  lemma InitializedTwiceIsNeverTaken(registry: map<int, Tree>, first: int -> bool, second: int -> bool, name: int)
    requires name in {SOURCE, TYPE, EXPLICIT_DURATION}
    ensures NeverTaken(WithBase(WithBase(registry, first), second)[name])
  {
    hide WithBase, NeverTaken, Variables;
    var once := WithBase(registry, first);
    BaseIsBound(registry, first, name);
    BaseIsBound(once, second, name);
    assert BaseLeaf(name, first).variable == BaseLeaf(name, second).variable;
    PairShares(once[name], BaseLeaf(name, second));
    NeverTakenWhenShared(WithBase(once, second)[name]);
  }

  /** After the first one an assignment returns true for some value, unless none is valid. */
  lemma InitializedOnceIsTaken(registry: map<int, Tree>, checkUrl: int -> bool, name: int)
    requires name in {SOURCE, TYPE, EXPLICIT_DURATION} && name !in registry
    ensures NeverTaken(WithBase(registry, checkUrl)[name]) <==>
            name == SOURCE && forall v: int :: !checkUrl(v)
  {
    hide WithBase, NeverTaken;
    BaseIsBound(registry, checkUrl, name);
    var t := WithBase(registry, checkUrl)[name];
    assert Leaves(t) == [t];
    NeverTakenWhenShared(t);
    assert forall v: int :: Passes(t, v) <==> t.check(v);
    assert name == TYPE ==> Passes(t, 0);
    assert name == EXPLICIT_DURATION ==> Passes(t, 0);
  }

  /** What playing does to a group: the marks clear its flag, and then it is applied once if it is due. */
  ghost predicate Batched(g: Group, applied: bool, calls: nat, marked: set<Group>, due: set<Group>)
    reads g
  {
    P.Called(g, applied && g !in marked, calls, due)
  }

  /** The variables that a property is bound to. */
  function VariablesIn(t: Tree): set<int> {
    set x | x in Variables(t)
  }

  /** A property in order, while the groups `down` have their flag clear. */
  ghost predicate InOrder(t: Tree, s: Store, down: set<Group>, playing: bool) {
    Closed(t) && Alert(t, down) && (playing ==> Settled(t)) && Harmonious(t, s)
  }

  /** The variables under one name are different ones, and have equal values and checks. */
  ghost predicate Harmonious(t: Tree, s: Store) {
    NoRepeats(Variables(t)) && exists v: int, ok: int -> bool :: Uniform(t, s, v, ok)
  }

  /** No two properties share a variable. */
  ghost predicate Apart(ts: seq<Tree>) {
    forall i, j :: 0 <= i < j < |ts| ==> VariablesIn(ts[i]) !! VariablesIn(ts[j])
  }

  /** None of the properties is bound to one of the variables. */
  ghost predicate Unbound(ts: seq<Tree>, xs: set<int>) {
    forall t :: t in ts ==> VariablesIn(t) !! xs
  }

  lemma UnboundFewer(ts: seq<Tree>, xs: set<int>, ys: set<int>)
    requires ys <= xs
    ensures Unbound(ts, xs) ==> Unbound(ts, ys)
  {
  }

  ghost predicate AllOrdered(ts: seq<Tree>, s: Store, down: set<Group>, playing: bool) {
    Apart(ts) && forall t :: t in ts ==> InOrder(t, s, down, playing)
  }

  /** The groups that an assignment makes due; it is applied only if it returns true while playing. */
  ghost function DueAfter(t: Tree, s: Store, v: int, playing: bool): set<Group> {
    if playing && T.Assign(t, s, v).outcome == Taken then Due(T.Assign(t, s, v).tree) else {}
  }

  /** Some property is flagged. */
  predicate SomeChanged(ts: seq<Tree>) {
    exists i :: 0 <= i < |ts| && ts[i].changed
  }

  lemma SomeMarked(ts: seq<Tree>)
    ensures SomeChanged(MarkAll(ts)) <==> ts != []
  {
    if ts != [] {
      assert MarkAll(ts)[0].changed;
    }
  }

  lemma {:induction false} NoneRefreshes(ts: seq<Tree>)
    requires !SomeChanged(ts)
    ensures !Refreshes(ts)
  {
    if ts != [] {
      assert !ts[0].changed;
      forall i | 0 <= i < |ts[1..]|
        ensures !ts[1..][i].changed
      {
        assert ts[1..][i] == ts[i + 1];
      }
      NoneRefreshes(ts[1..]);
    }
  }

  lemma SettledInOrder(t: Tree, s: Store, down: set<Group>)
    requires Settled(t) && Harmonious(t, s)
    ensures forall p: bool :: InOrder(t, s, down, p)
  {
    SettledIsClosed(t);
    SettledIsAlert(t, down);
  }

  lemma ApplyOrder(t: Tree, s: Store, down: set<Group>)
    requires Closed(t) && Harmonious(t, s)
    ensures Variables(T.Apply(t)) == Variables(t)
    ensures forall p: bool :: InOrder(T.Apply(t), s, down, p)
  {
    hide Uniform;
    var v: int, ok: int -> bool :| Uniform(t, s, v, ok);
    ApplyKeepsUniform(t, s, v, ok);
    ApplyKeepsLeaves(t);
    SameVariables(T.Apply(t), t);
    ApplySettles(t);
    SettledInOrder(T.Apply(t), s, down);
  }

  lemma MarkOrder(t: Tree, s: Store, down: set<Group>, down': set<Group>, playing: bool)
    requires InOrder(t, s, down, playing) && down <= down' && (t.Leaf? ==> GroupOf(t.hook) <= down')
    ensures InOrder(Mark(t), s, down', false) && Variables(Mark(t)) == Variables(t)
  {
    AlertGrows(t, down, down');
    MarkKeepsLeaves(t);
    SameVariables(Mark(t), t);
    var v: int, ok: int -> bool :| Uniform(t, s, v, ok);
    assert Uniform(Mark(t), s, v, ok);
  }

  lemma MarkKeepsLeaves(t: Tree)
    ensures SameLeaves(Leaves(Mark(t)), Leaves(t))
  {
    if t.Node? {
      assert Leaves(Mark(t)) == LeavesOf(t.members);
    }
  }

  lemma {:induction false} AllInOrder(ts: seq<Tree>, s: Store, down: set<Group>, playing: bool)
    requires forall t :: t in ts ==> InOrder(t, s, down, playing)
    ensures ClosedAll(ts) && AlertAll(ts, down) && (playing ==> SettledAll(ts))
  {
    if ts != [] {
      assert ts[0] in ts;
      AllInOrder(ts[1..], s, down, playing);
    }
  }

  /** The same variables, one property after another. */
  ghost predicate SameVariablesIn(ts: seq<Tree>, us: seq<Tree>) {
    |ts| == |us| && forall i :: 0 <= i < |ts| ==> Variables(ts[i]) == Variables(us[i])
  }

  lemma StaysApart(ts: seq<Tree>, us: seq<Tree>)
    requires Apart(ts) && SameVariablesIn(us, ts)
    ensures Apart(us)
  {
    hide Variables;
  }

  lemma {:induction false} MarkAllOrder(ts: seq<Tree>, s: Store, down: set<Group>, down': set<Group>, playing: bool)
    requires forall t :: t in ts ==> InOrder(t, s, down, playing)
    requires down + MarkedGroups(ts) <= down'
    ensures SameVariablesIn(MarkAll(ts), ts)
    ensures forall t :: t in MarkAll(ts) ==> InOrder(t, s, down', false)
  {
    hide InOrder, Variables;
    if ts != [] {
      assert ts[0] in ts;
      MarkOrder(ts[0], s, down, down', playing);
      MarkAllOrder(ts[1..], s, down, down', playing);
    }
  }

  lemma {:induction false} ApplyAllOrder(ts: seq<Tree>, s: Store, down: set<Group>)
    requires forall t :: t in ts ==> Closed(t) && Harmonious(t, s)
    ensures SameVariablesIn(ApplyAll(ts), ts)
    ensures forall t, p: bool :: t in ApplyAll(ts) ==> InOrder(t, s, down, p)
  {
    hide InOrder, Variables;
    if ts != [] {
      assert ts[0] in ts;
      ApplyOrder(ts[0], s, down);
      ApplyAllOrder(ts[1..], s, down);
    }
  }

  /** Playing leaves the properties in order, and the groups with a flagged member are exactly those it applies. */
  lemma PlayOrder(ts: seq<Tree>, s: Store, down: set<Group>, down': set<Group>, was: bool, playing: bool)
    requires AllOrdered(ts, s, down, was)
    requires playing || down + MarkedGroups(ts) <= down'
    ensures AllOrdered(if playing then ApplyAll(MarkAll(ts)) else MarkAll(ts), s, down', playing)
    ensures DueAll(MarkAll(ts)) <= down + MarkedGroups(ts)
    ensures forall g :: g in DueAll(MarkAll(ts)) <==> PendingIn(MarkAll(ts), g)
  {
    hide Apart;
    var marked := down + MarkedGroups(ts);
    MarkAllOrder(ts, s, down, marked, was);
    StaysApart(ts, MarkAll(ts));
    AllInOrder(MarkAll(ts), s, marked, false);
    DueIsAlert(MarkAll(ts), marked);
    forall g: Group
      ensures g in DueAll(MarkAll(ts)) <==> PendingIn(MarkAll(ts), g)
    {
      DueAllIsPending(MarkAll(ts), g);
    }
    if playing {
      ApplyAllOrder(MarkAll(ts), s, down');
      StaysApart(MarkAll(ts), ApplyAll(MarkAll(ts)));
    } else {
      MarkAllOrder(ts, s, down, down', was);
    }
  }

  /** While playing nothing is flagged, so that resuming applies nothing. */
  lemma PauseOrder(ts: seq<Tree>, s: Store, down: set<Group>, down': set<Group>, was: bool, now: bool)
    requires AllOrdered(ts, s, down, was)
    requires (now ==> was) && (was || down == down')
    ensures AllOrdered(ts, s, down', now)
    ensures was ==> ApplyAll(ts) == ts && DueAll(ts) == {}
  {
    if was {
      AllInOrder(ts, s, down, was);
      NothingToApply(ts);
      forall t | t in ts
        ensures InOrder(t, s, down', now)
      {
        SettledInOrder(t, s, down');
      }
    }
  }

  lemma {:induction false} NothingToApply(ts: seq<Tree>)
    requires SettledAll(ts)
    ensures ApplyAll(ts) == ts && DueAll(ts) == {}
  {
    if ts != [] {
      NothingToApply(ts[1..]);
    }
  }

  lemma AssignOrder(t: Tree, s: Store, v: int, playing: bool, down: set<Group>, down': set<Group>)
    requires InOrder(t, s, down, playing) && Proper(t) && (playing || down + Touched(t, s, v) <= down')
    ensures var after := if playing then AssignLive(t, s, v) else T.Assign(t, s, v).tree;
            InOrder(after, T.Assign(t, s, v).store, down', playing) && Variables(after) == Variables(t)
  {
    hide T.Assign, Closed, Settled, Touched, Proper, Uniform, Variables, NoRepeats, SameLeaves;
    var v0: int, ok: int -> bool :| Uniform(t, s, v0, ok);
    UniformAssignment(t, s, v0, ok, v);
    var after := T.Assign(t, s, v);
    if after.outcome == Taken {
      AssignKeepsLeaves(t, s, v);
      SameVariables(after.tree, t);
      TakenMarks(t, s, v);
      ApplyOrder(after.tree, after.store, down');
      if !playing {
        AssignKeepsAlert(t, s, v, down);
        AlertGrows(after.tree, down + Touched(t, s, v), down');
      }
    } else if playing {
      SettledInOrder(t, s, down');
    } else {
      AlertGrows(t, down, down');
    }
  }

  /** An assignment while playing makes those groups due that have a flagged member then, and their flag is clear. */
  lemma SetIsDue(ts: seq<Tree>, s: Store, i: nat, v: int, down: set<Group>)
    requires i < |ts| && AllOrdered(ts, s, down, true) && Proper(ts[i])
    ensures DueAfter(ts[i], s, v, true) <= Touched(ts[i], s, v)
    ensures forall g :: g in DueAfter(ts[i], s, v, true) <==> PendingIn([T.Assign(ts[i], s, v).tree], g)
  {
    hide T.Assign, Touched, Proper, Uniform, Variables, NoRepeats;
    var t := ts[i];
    assert t in ts;
    var after := T.Assign(t, s, v);
    var v0: int, ok: int -> bool :| Uniform(t, s, v0, ok);
    UniformAssignment(t, s, v0, ok, v);
    SettledIsAlert(t, {});
    AssignKeepsAlert(t, s, v, {});
    assert {} + Touched(t, s, v) == Touched(t, s, v) && [after.tree][1..] == [];
    DueIsAlert([after.tree], Touched(t, s, v));
    assert DueAll([after.tree]) == Due(after.tree);
    if after.outcome == Taken {
      TakenMarks(t, s, v);
    }
    forall g: Group
      ensures g in Due(after.tree) <==> PendingIn([after.tree], g)
    {
      DueAllIsPending([after.tree], g);
    }
  }

  /** What a property is bound to stays as it is when only variables of others are written. */
  lemma OthersStay(t: Tree, u: Tree, s: Store, v: int)
    requires Harmonious(t, s) && VariablesIn(t) !! VariablesIn(u)
    ensures Harmonious(t, T.Assign(u, s, v).store)
  {
    hide Variables, T.Assign, NoRepeats;
    var s' := T.Assign(u, s, v).store;
    var v0: int, ok: int -> bool :| Uniform(t, s, v0, ok);
    forall x | x in Variables(t)
      ensures Read(s', x) == v0
    {
      assert x in VariablesIn(t);
      AssignWritesOwn(u, s, v, x);
    }
    assert Uniform(t, s', v0, ok);
  }

  lemma SetOrder(ts: seq<Tree>, s: Store, i: nat, v: int, playing: bool, down: set<Group>, down': set<Group>)
    requires i < |ts| && AllOrdered(ts, s, down, playing) && forall t :: t in ts ==> Proper(t)
    requires playing || down + Touched(ts[i], s, v) <= down'
    ensures var after := if playing then AssignLive(ts[i], s, v) else T.Assign(ts[i], s, v).tree;
            var store := T.Assign(ts[i], s, v).store;
            AllOrdered(ts[i := after], store, down', playing) && AllOrdered(ts[i := after], store, down', false)
  {
    hide T.Assign, Touched, Proper, AssignLive, Harmonious, Variables;
    AssignOrder(ts[i], s, v, playing, down, down');
    var after := if playing then AssignLive(ts[i], s, v) else T.Assign(ts[i], s, v).tree;
    var store := T.Assign(ts[i], s, v).store;
    var us := ts[i := after];
    StaysApart(ts, us);
    forall k | 0 <= k < |us|
      ensures InOrder(us[k], store, down', playing)
    {
      assert ts[k] in ts && ts[i] in ts;
      if k != i {
        assert VariablesIn(ts[k]) !! VariablesIn(ts[i]);
        OthersStay(ts[k], ts[i], s, v);
        if playing {
          SettledInOrder(ts[k], store, down');
        } else {
          AlertGrows(ts[k], down, down');
        }
      }
    }
  }

  /** A property that is in order joins the others: as a new one, or as a part of the `i`th. */
  lemma AddedInOrder(ts: seq<Tree>, s: Store, i: nat, t: Tree, us: seq<Tree>, down: set<Group>, down': set<Group>,
                     playing: bool)
    requires AllOrdered(ts, s, down, playing) && down <= down' && i <= |ts|
    requires Unbound(ts, VariablesIn(t))
    requires || us == ts[..i] + [t] + ts[i..]
             || (i < |ts| && us == ts[i := Node([ts[i], t], true)])
    requires i < |us| && InOrder(us[i], s, down', playing)
    ensures AllOrdered(us, s, down', playing)
  {
    hide InOrder, Variables, VariablesIn;
    MoreGroups(ts, s, down, down', playing);
    if us == ts[..i] + [t] + ts[i..] {
      forall j, k | 0 <= j < k < |us|
        ensures VariablesIn(us[j]) !! VariablesIn(us[k])
      {
        assert us[j] == if j < i then ts[j] else if j == i then t else ts[j - 1];
        assert us[k] == if k < i then ts[k] else if k == i then t else ts[k - 1];
      }
    } else {
      PairVariables(ts[i], t);
    }
  }

  lemma PairVariables(a: Tree, b: Tree)
    ensures VariablesIn(Node([a, b], true)) == VariablesIn(a) + VariablesIn(b)
  {
    var members := [a, b];
    assert members[1..] == [b] && members[1..][1..] == [];
    assert LeavesOf(members[1..]) == Leaves(b) + LeavesOf([]) == Leaves(b);
    assert Leaves(Node(members, true)) == Leaves(a) + Leaves(b);
    VariablesConcat(Leaves(a), Leaves(b));
  }

  ghost predicate Ascending(names: seq<int>) {
    forall i, j :: 0 <= i < j < |names| ==> names[i] < names[j]
  }

  ghost function RegistryOf(names: seq<int>, ts: seq<Tree>): (r: map<int, Tree>)
    requires Ascending(names) && |names| == |ts|
    ensures forall n :: n in r <==> n in names
  {
    map i | 0 <= i < |names| :: names[i] := ts[i]
  }

  lemma Replaced(names: seq<int>, ts: seq<Tree>, i: nat, t: Tree)
    requires Ascending(names) && |names| == |ts| && i < |ts|
    ensures RegistryOf(names, ts[i := t]) == RegistryOf(names, ts)[names[i] := t]
    ensures names[i] in RegistryOf(names, ts) && RegistryOf(names, ts)[names[i]] == ts[i]
  {
  }

  lemma Inserted(names: seq<int>, ts: seq<Tree>, i: nat, name: int, t: Tree)
    requires Ascending(names) && |names| == |ts| && i <= |ts|
    requires (forall j :: 0 <= j < i ==> names[j] < name) && forall j :: i <= j < |names| ==> name < names[j]
    ensures Ascending(names[..i] + [name] + names[i..]) && name !in names
    ensures RegistryOf(names[..i] + [name] + names[i..], ts[..i] + [t] + ts[i..]) == RegistryOf(names, ts)[name := t]
    ensures name !in RegistryOf(names, ts)
  {
    StaysAscending(names, i, name);
    SameMap(names, ts, i, name, t);
  }

  lemma RegistryAt(names: seq<int>, ts: seq<Tree>, k: nat)
    requires Ascending(names) && |names| == |ts| && k < |ts|
    ensures names[k] in RegistryOf(names, ts) && RegistryOf(names, ts)[names[k]] == ts[k]
  {
  }

  lemma SameMap(names: seq<int>, ts: seq<Tree>, i: nat, name: int, t: Tree)
    requires Ascending(names) && |names| == |ts| && i <= |ts| && name !in names
    requires Ascending(names[..i] + [name] + names[i..])
    ensures RegistryOf(names[..i] + [name] + names[i..], ts[..i] + [t] + ts[i..]) == RegistryOf(names, ts)[name := t]
  {
    hide Ascending, RegistryOf;
    var names', ts' := names[..i] + [name] + names[i..], ts[..i] + [t] + ts[i..];
    var r', r := RegistryOf(names', ts'), RegistryOf(names, ts)[name := t];
    SameNames(names, i, name);
    assert r'.Keys == r.Keys;
    forall n | n in r'
      ensures r'[n] == r[n]
    {
      var k :| 0 <= k < |names'| && names'[k] == n;
      RegistryAt(names', ts', k);
      OldPlace(names, ts, i, name, t, k);
    }
  }

  lemma SameNames(names: seq<int>, i: nat, name: int)
    requires i <= |names|
    ensures forall n :: n in names[..i] + [name] + names[i..] <==> n == name || n in names
  {
    assert names == names[..i] + names[i..];
  }

  lemma StaysAscending(names: seq<int>, i: nat, name: int)
    requires Ascending(names) && i <= |names|
    requires (forall j :: 0 <= j < i ==> names[j] < name) && forall j :: i <= j < |names| ==> name < names[j]
    ensures Ascending(names[..i] + [name] + names[i..]) && name !in names
  {
  }

  lemma OldPlace(names: seq<int>, ts: seq<Tree>, i: nat, name: int, t: Tree, k: nat)
    requires Ascending(names) && |names| == |ts| && i <= |ts| && k <= |ts| && name !in names
    ensures var r := RegistryOf(names, ts)[name := t];
            var n := (names[..i] + [name] + names[i..])[k];
            n in r && r[n] == (ts[..i] + [t] + ts[i..])[k]
  {
    hide Ascending, RegistryOf;
    if k != i {
      var j := if k < i then k else k - 1;
      assert (names[..i] + [name] + names[i..])[k] == names[j];
      assert (ts[..i] + [t] + ts[i..])[k] == ts[j];
      RegistryAt(names, ts, j);
    }
  }

  /** A new property of one variable is in order unless its group has forgotten it. */
  lemma NewLeafInOrder(t: Tree, s: Store, down: set<Group>)
    requires t.Leaf? && GroupOf(t.hook) <= down
    ensures InOrder(t, s, down, false) && Proper(t) && VariablesIn(t) == {t.variable}
  {
    assert Leaves(t) == [t] && Variables(t) == [t.variable];
    assert Uniform(t, s, Read(s, t.variable), t.check);
  }

  lemma PairIsProper(a: Tree, b: Tree)
    requires Proper(a) && Proper(b)
    ensures Proper(Node([a, b], true)) && P.AllGroups(Node([a, b], true)) == P.AllGroups(a) + P.AllGroups(b)
  {
    var ts := [a, b];
    assert ts[1..] == [b] && ts[1..][1..] == [];
    assert ProperAll(ts[1..]) && P.AllGroupsOf(ts[1..]) == P.AllGroups(b) + P.AllGroupsOf([]);
  }

  lemma MoreGroups(ts: seq<Tree>, s: Store, down: set<Group>, down': set<Group>, playing: bool)
    requires down <= down' && forall t :: t in ts ==> InOrder(t, s, down, playing)
    ensures forall t :: t in ts ==> InOrder(t, s, down', playing)
  {
    forall t | t in ts
      ensures InOrder(t, s, down', playing)
    {
      AlertGrows(t, down, down');
    }
  }

  lemma {:induction false} MarkedAreOwn(ts: seq<Tree>, all: set<Group>)
    requires forall t :: t in ts ==> P.AllGroups(t) <= all
    ensures MarkedGroups(ts) <= all
  {
    if ts != [] {
      assert ts[0] in ts;
      MarkedAreOwn(ts[1..], all);
    }
  }

  lemma {:induction false} TouchedAreOwn(t: Tree, s: Store, v: int)
    ensures Touched(t, s, v) <= P.AllGroups(t)
  {
    if t.Node? {
      TouchedAllAreOwn(t.members, s, v);
    }
  }

  lemma {:induction false} TouchedAllAreOwn(ts: seq<Tree>, s: Store, v: int)
    ensures TouchedAll(ts, s, v) <= P.AllGroupsOf(ts)
  {
    if ts != [] {
      TouchedAreOwn(ts[0], s, v);
      TouchedAllAreOwn(ts[1..], T.Assign(ts[0], s, v).store, v);
    }
  }

  lemma {:induction false} GroupsOfAll(ts: seq<Tree>, all: set<Group>)
    requires forall t :: t in ts ==> P.AllGroups(t) <= all
    ensures P.AllGroupsOf(ts) <= all
  {
    if ts != [] {
      GroupsOfAll(ts[1..], all);
    }
  }

  lemma {:induction false} MarkedAreRegistered(ts: seq<Tree>, all: set<Group>)
    requires forall t :: t in ts ==> Proper(t) && P.AllGroups(t) <= all
    ensures forall t :: t in MarkAll(ts) ==> Proper(t) && P.AllGroups(t) <= all
  {
    if ts != [] {
      assert ts[0] in ts;
      MarkedAreRegistered(ts[1..], all);
    }
  }

  lemma {:induction false} AppliedAreRegistered(ts: seq<Tree>, all: set<Group>)
    requires forall t :: t in ts ==> Proper(t) && P.AllGroups(t) <= all
    ensures forall t :: t in ApplyAll(ts) ==> Proper(t) && P.AllGroups(t) <= all
  {
    if ts != [] {
      ApplyKeepsShape(ts[0]);
      assert ts[0] in ts;
      AppliedAreRegistered(ts[1..], all);
    }
  }

  lemma {:induction false} AssignKeepsShape(t: Tree, s: Store, v: int)
    ensures P.AllGroups(T.Assign(t, s, v).tree) == P.AllGroups(t)
    ensures Proper(T.Assign(t, s, v).tree) == Proper(t)
  {
    if t.Node? {
      AssignAllKeepsShape(t.members, s, v);
    }
  }

  lemma {:induction false} AssignAllKeepsShape(ts: seq<Tree>, s: Store, v: int)
    ensures P.AllGroupsOf(AssignAll(ts, s, v).trees) == P.AllGroupsOf(ts)
    ensures ProperAll(AssignAll(ts, s, v).trees) == ProperAll(ts)
  {
    if ts != [] {
      AssignKeepsShape(ts[0], s, v);
      AssignAllKeepsShape(ts[1..], T.Assign(ts[0], s, v).store, v);
    }
  }

  lemma {:induction false} ApplyKeepsShape(t: Tree)
    ensures P.AllGroups(T.Apply(t)) == P.AllGroups(t)
    ensures Proper(T.Apply(t)) == Proper(t)
  {
    if t.Node? {
      ApplyAllKeepsShape(t.members);
    }
  }

  lemma {:induction false} ApplyAllKeepsShape(ts: seq<Tree>)
    ensures P.AllGroupsOf(ApplyAll(ts)) == P.AllGroupsOf(ts)
    ensures ProperAll(ApplyAll(ts)) == ProperAll(ts)
  {
    if ts != [] {
      ApplyKeepsShape(ts[0]);
      ApplyAllKeepsShape(ts[1..]);
    }
  }
}
