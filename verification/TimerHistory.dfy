/**
 What a timeline has done with its timers so far, and what the order of its steps guarantees about
 every run.
 */
module TimerHistory {
  import opened TimerHeap

  /** A dispatch: the uptime then, the running time in microseconds, and how many timers had been added. */
  datatype Dispatch = Dispatch(timer: Timer, uptime: nat, ran: nat, known: nat)

  datatype History = History(added: seq<Timer>, pending: seq<Timer>, dispatched: seq<Dispatch>, dropped: seq<Timer>)

  function Timers(ds: seq<Dispatch>): (r: seq<Timer>)
    ensures |r| == |ds| && forall i :: 0 <= i < |ds| ==> r[i] == ds[i].timer
  {
    seq(|ds|, i requires 0 <= i < |ds| => ds[i].timer)
  }

  /** Every timer ever added is pending, dispatched or dropped, and no more than one of these. */
  ghost predicate Conserved(h: History) {
    && (forall i :: 0 <= i < |h.added| ==> h.added[i].id == i)
    && multiset(h.added) == multiset(h.pending) + multiset(Timers(h.dispatched)) + multiset(h.dropped)
  }

  ghost predicate OnTime(d: Dispatch) {
    d.timer.ms <= d.uptime && 1000 * d.uptime <= d.ran
  }

  /** No timer that was pending at a dispatch was due before the dispatched one. */
  ghost predicate Before(d: Dispatch, t: Timer) {
    t.id < d.known ==> d.timer.ms <= t.ms
  }

  ghost predicate Sane(h: History) {
    && Conserved(h) && IsHeap(h.pending)
    && (forall d :: d in h.dispatched ==> OnTime(d) && d.known <= |h.added|)
    && (forall d, t :: d in h.dispatched && t in h.pending ==> Before(d, t))
    && (forall i, j :: 0 <= i < j < |h.dispatched| ==> Before(h.dispatched[i], h.dispatched[j].timer))
  }

  // ----- The steps

  lemma AddStep(h: History, t: Timer, pending: seq<Timer>)
    requires Sane(h) && t.id == |h.added|
    requires IsHeap(pending) && multiset(pending) == multiset(h.pending + [t])
    ensures Sane(h.(added := h.added + [t], pending := pending))
  {
    var h' := h.(added := h.added + [t], pending := pending);
    assert multiset(h.pending + [t]) == multiset(h.pending) + multiset{t};
    forall d, p | d in h'.dispatched && p in h'.pending
      ensures Before(d, p)
    {
      assert p in multiset(pending);
      assert p in h.pending || p == t;
    }
  }

  lemma OrderGrows(ds: seq<Dispatch>, d: Dispatch)
    requires forall i, j :: 0 <= i < j < |ds| ==> Before(ds[i], ds[j].timer)
    requires forall e :: e in ds ==> Before(e, d.timer)
    ensures var r := ds + [d]; forall i, j :: 0 <= i < j < |r| ==> Before(r[i], r[j].timer)
  {
    hide Before;
  }

  lemma DispatchConserves(h: History, d: Dispatch, pending: seq<Timer>)
    requires Conserved(h) && multiset(pending + [d.timer]) == multiset(h.pending)
    ensures Conserved(h.(pending := pending, dispatched := h.dispatched + [d]))
    ensures forall p :: p in pending ==> p in h.pending
  {
    assert Timers(h.dispatched + [d]) == Timers(h.dispatched) + [d.timer];
    assert multiset(pending + [d.timer]) == multiset(pending) + multiset{d.timer};
    forall p | p in pending
      ensures p in h.pending
    {
      assert p in multiset(h.pending);
    }
  }

  lemma DispatchStep(h: History, d: Dispatch, pending: seq<Timer>)
    requires Sane(h) && h.pending != [] && d.timer == h.pending[0] && OnTime(d) && d.known == |h.added|
    requires IsHeap(pending) && multiset(pending + [d.timer]) == multiset(h.pending)
    ensures Sane(h.(pending := pending, dispatched := h.dispatched + [d]))
  {
    hide Conserved, IsHeap, OnTime;
    DispatchConserves(h, d, pending);
    forall p | p in pending
      ensures d.timer.ms <= p.ms
    {
      var i :| 0 <= i < |h.pending| && h.pending[i] == p;
      FrontIsEarliest(h.pending, i);
    }
    OrderGrows(h.dispatched, d);
  }

  lemma DropStep(h: History, t: Timer, pending: seq<Timer>)
    requires Sane(h) && IsHeap(pending) && multiset(pending + [t]) == multiset(h.pending)
    ensures Sane(h.(pending := pending, dropped := h.dropped + [t]))
  {
    var h' := h.(pending := pending, dropped := h.dropped + [t]);
    assert multiset(pending + [t]) == multiset(pending) + multiset{t};
    assert multiset(h'.dropped) == multiset(h.dropped) + multiset{t};
    forall d, p | d in h'.dispatched && p in h'.pending
      ensures Before(d, p)
    {
      assert p in multiset(h.pending);
    }
  }

  // ----- What every history satisfies

  /** Added timers are pending, dispatched or dropped: the numbers agree. */
  lemma NumbersAgree(h: History)
    requires Sane(h)
    ensures |h.added| == |h.pending| + |h.dispatched| + |h.dropped|
  {
    assert |multiset(h.added)| == |h.added|;
    assert |multiset(h.pending)| == |h.pending|;
    assert |multiset(Timers(h.dispatched))| == |h.dispatched|;
    assert |multiset(h.dropped)| == |h.dropped|;
  }

  lemma {:induction false} AddedOnce(added: seq<Timer>, t: Timer)
    requires forall i :: 0 <= i < |added| ==> added[i].id == i
    ensures multiset(added)[t] <= 1
  {
    if added != [] {
      var n := |added| - 1;
      var before, last := added[..n], added[n];
      AddedOnce(before, t);
      assert added == before + [last];
      if t == last {
        assert t !in before;
      }
    }
  }

  lemma CountOfTwo(s: seq<Timer>, i: nat, j: nat)
    requires i < j < |s| && s[i] == s[j]
    ensures multiset(s)[s[i]] >= 2
  {
    var a, b, c := s[..i], s[i + 1..j], s[j + 1..];
    assert s == a + [s[i]] + b + [s[j]] + c;
  }

  /** No timer fires twice. */
  lemma FiresOnce(h: History, i: nat, j: nat)
    requires Sane(h) && i < j < |h.dispatched|
    ensures h.dispatched[i].timer != h.dispatched[j].timer
  {
    var fired := Timers(h.dispatched);
    if fired[i] == fired[j] {
      CountOfTwo(fired, i, j);
      AddedOnce(h.added, fired[i]);
    }
  }

  /** A timer that has fired or been dropped is no longer pending. */
  lemma FiredIsGone(h: History, i: nat)
    requires Sane(h) && i < |h.dispatched|
    ensures h.dispatched[i].timer !in h.pending && h.dispatched[i].timer !in h.dropped
  {
    var t := h.dispatched[i].timer;
    assert Timers(h.dispatched)[i] == t;
    assert multiset(Timers(h.dispatched))[t] >= 1;
    AddedOnce(h.added, t);
    assert multiset(h.added)[t] == multiset(h.pending)[t] + multiset(Timers(h.dispatched))[t] + multiset(h.dropped)[t];
  }

  // ----- Runs

  /** A step of a timeline, with the heap that it leaves. */
  datatype Event =
    | Adds(t: Timer, pending: seq<Timer>)
    | Dispatches(d: Dispatch, pending: seq<Timer>)
    | Drops(t: Timer, pending: seq<Timer>)

  const NOTHING := History([], [], [], [])

  ghost predicate Allowed(h: History, e: Event) {
    IsHeap(e.pending) &&
    match e
    case Adds(t, pending) => t.id == |h.added| && multiset(pending) == multiset(h.pending + [t])
    case Dispatches(d, pending) =>
      && h.pending != [] && d.timer == h.pending[0] && OnTime(d) && d.known == |h.added|
      && multiset(pending + [d.timer]) == multiset(h.pending)
    case Drops(t, pending) => multiset(pending + [t]) == multiset(h.pending)
  }

  function After(h: History, e: Event): History {
    match e
    case Adds(t, pending) => h.(added := h.added + [t], pending := pending)
    case Dispatches(d, pending) => h.(pending := pending, dispatched := h.dispatched + [d])
    case Drops(t, pending) => h.(pending := pending, dropped := h.dropped + [t])
  }

  /** The steps lead from one history to another. */
  ghost predicate Leads(h: History, events: seq<Event>, h': History)
    decreases |events|
  {
    if events == [] then h == h'
    else Allowed(h, events[0]) && Leads(After(h, events[0]), events[1..], h')
  }

  lemma {:induction false} RunIsSane(h: History, events: seq<Event>, h': History)
    requires Sane(h) && Leads(h, events, h')
    ensures Sane(h')
    decreases |events|
  {
    hide Sane, IsHeap;
    if events != [] {
      match events[0] {
        case Adds(t, pending) => AddStep(h, t, pending);
        case Dispatches(d, pending) => DispatchStep(h, d, pending);
        case Drops(t, pending) => DropStep(h, t, pending);
      }
      RunIsSane(After(h, events[0]), events[1..], h');
    }
  }

  /** Some run leads to the history, from a timeline that has done nothing. */
  ghost predicate Reached(h: History) {
    exists events :: Leads(NOTHING, events, h)
  }

  lemma NothingIsReached()
    ensures Reached(NOTHING)
  {
    assert Leads(NOTHING, [], NOTHING);
  }

  /** A step more is a run again. */
  lemma Goes(h: History, e: Event)
    requires Reached(h) && Allowed(h, e)
    ensures Reached(After(h, e))
  {
    var events :| Leads(NOTHING, events, h);
    LeadsOn(NOTHING, events, h, e);
  }

  lemma {:induction false} LeadsOn(h: History, events: seq<Event>, h': History, e: Event)
    requires Leads(h, events, h') && Allowed(h', e)
    ensures Leads(h, events + [e], After(h', e))
    decreases |events|
  {
    hide Allowed, After;
    if events == [] {
      assert [e][1..] == [] && Leads(After(h, e), [], After(h, e));
    } else {
      LeadsOn(After(h, events[0]), events[1..], h', e);
      assert (events + [e])[1..] == events[1..] + [e];
    }
  }

  /** What is reached is sane, so that all that was shown of sane histories holds in every run. */
  lemma ReachedIsSane(h: History)
    requires Reached(h)
    ensures Sane(h)
  {
    var events :| Leads(NOTHING, events, h);
    assert Sane(NOTHING);
    hide Sane, Leads;
    RunIsSane(NOTHING, events, h);
  }

  /** In every run, no timer fires before its time: neither by the uptime then nor by the running time. */
  lemma NeverEarly(h: History, i: nat)
    requires Reached(h) && i < |h.dispatched|
    ensures h.dispatched[i].timer.ms <= h.dispatched[i].uptime
    ensures 1000 * h.dispatched[i].timer.ms <= 1000 * h.dispatched[i].uptime <= h.dispatched[i].ran
  {
    hide Conserved, IsHeap, Reached;
    ReachedIsSane(h);
    assert OnTime(h.dispatched[i]);
  }

  /** In every run, of two timers pending together the one that is due first fires first. */
  lemma EarlierFirst(h: History, i: nat, j: nat)
    requires Reached(h) && i < |h.dispatched| && j < |h.dispatched|
    requires h.dispatched[i].timer.ms < h.dispatched[j].timer.ms
    requires h.dispatched[i].timer.id < h.dispatched[j].known
    ensures i < j
  {
    hide Conserved, IsHeap, Reached;
    ReachedIsSane(h);
    assert j < i ==> Before(h.dispatched[j], h.dispatched[i].timer);
  }

  /** In every run, whatever has fired since a timer was added that is still pending was due no later. */
  lemma PendingIsLater(h: History, i: nat, t: Timer)
    requires Reached(h)
    requires i < |h.dispatched| && t in h.pending && t.id < h.dispatched[i].known
    ensures h.dispatched[i].timer.ms <= t.ms
  {
    ReachedIsSane(h);
    assert Before(h.dispatched[i], t);
  }
}
