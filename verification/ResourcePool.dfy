/**
 A pool of buffers shared by threads, after lib/dtv-util/src/resourcepool.cpp, as a state machine:
 a step is what one thread does while it holds the mutex, a wake-up, or a notification.  Clients
 free the buffers they hold and give back what they have reserved.
 */
module ResourcePool {

  type Thread = nat

  /** A buffer object; the pool makes them one after another. */
  type Buffer = nat

  datatype Result = Null | Got(buffer: Buffer)

  datatype At =
    | Idle
    | Sleeps(timed: bool)     // in `alloc`, on the condition
    | Wakes(timed: bool)
    | NotifiesOne
    | NotifiesAll
    | Returns(result: Result, timed: bool)

  datatype State = State(
    max: nat, blockSize: nat, free: seq<Buffer>, made: nat, locked: nat,
    threads: map<Thread, At>,
    // who holds what, and the sizes that have been reserved
    held: map<Buffer, Thread>, reserved: seq<nat>)

  datatype Step =
    | Alloc(c: Thread, timed: bool)
    | WakeUp(c: Thread)                    // notified, timed out or for no reason
    | Retry(c: Thread)
    | Accept(c: Thread)
    | Free(c: Thread, buffer: Buffer, quiet: bool)
    | FreeAll(c: Thread, buffers: seq<Buffer>, quiet: bool)
    | NotifyNobody(c: Thread)
    | NotifyOne(c: Thread, w: Thread)
    | NotifyAll(c: Thread)
    | Lock(c: Thread, size: nat)
    | Unlock(c: Thread, k: nat)            // the `k`th reservation

  function Init(max: nat, blockSize: nat): State {
    State(max, blockSize, [], 0, 0, map[], map[], [])
  }

  // ----- Sizes

  /** The number of blocks for so many bytes. */
  function Blocks(size: nat, blockSize: nat): nat
    requires blockSize > 0
  {
    size / blockSize + if size % blockSize != 0 then 1 else 0
  }

  /** It is the least number of blocks with room for them. */
  lemma BlocksIsLeast(size: nat, blockSize: nat, n: nat)
    requires blockSize > 0
    ensures size <= n * blockSize <==> Blocks(size, blockSize) <= n
  {
    var q, r := size / blockSize, size % blockSize;
    assert size == q * blockSize + r;
    if n < q {
      Times(n + 1, q, blockSize);
    } else if n > q {
      Times(q + 1, n, blockSize);
    }
  }

  lemma Times(a: nat, b: nat, m: nat)
    requires a <= b
    ensures a * m <= b * m && a * m == (a - 1) * m + m
  {
  }

  /** `availables`; unsigned, so that it relies on `_allocated <= _max`. */
  function Availables(s: State): nat
    requires s.made <= s.max
  {
    var total := s.max - s.made + |s.free|;
    if s.locked > total then 0 else total - s.locked
  }

  // ----- Steps

  function AtOf(s: State, c: Thread): At {
    if c in s.threads then s.threads[c] else Idle
  }

  function Moves(s: State, c: Thread, at: At): State {
    s.(threads := s.threads[c := at])
  }

  /** The part of `alloc` that takes a buffer, makes one, or gives up. */
  function Take(s: State, c: Thread, timed: bool): State {
    if s.free != [] then
      Moves(s, c, Returns(Got(s.free[0]), timed)).(free := s.free[1..], held := s.held[s.free[0] := c])
    else if s.made < s.max then
      Moves(s, c, Returns(Got(s.made), timed)).(made := s.made + 1, held := s.held[s.made := c])
    else Moves(s, c, Returns(Null, timed))
  }

  predicate Distinct(bs: seq<Buffer>) {
    forall j, k :: 0 <= j < k < |bs| ==> bs[j] != bs[k]
  }

  function Elements(bs: seq<Buffer>): set<Buffer> {
    set b | b in bs
  }

  predicate MustWait(s: State) {
    s.free == [] && s.made >= s.max
  }

  predicate Enabled(s: State, step: Step) {
    match step
    case Alloc(c, timed) => AtOf(s, c).Idle?
    case WakeUp(c) => AtOf(s, c).Sleeps?
    case Retry(c) => AtOf(s, c).Wakes?
    case Accept(c) => AtOf(s, c).Returns?
    case Free(c, b, quiet) => AtOf(s, c).Idle? && b in s.held && s.held[b] == c
    case FreeAll(c, bs, quiet) =>
      AtOf(s, c).Idle? && Distinct(bs) && forall b :: b in bs ==> b in s.held && s.held[b] == c
    case NotifyNobody(c) => AtOf(s, c).NotifiesOne? && forall w :: w in s.threads ==> !s.threads[w].Sleeps?
    case NotifyOne(c, w) => AtOf(s, c).NotifiesOne? && AtOf(s, w).Sleeps?
    case NotifyAll(c) => AtOf(s, c).NotifiesAll?
    case Lock(c, size) => AtOf(s, c).Idle? && s.blockSize > 0 && s.made <= s.max
    case Unlock(c, k) => AtOf(s, c).Idle? && s.blockSize > 0 && k < |s.reserved|
  }

  function After(s: State, step: Step): State
    requires Enabled(s, step)
  {
    match step
    case Alloc(c, timed) => if MustWait(s) then Moves(s, c, Sleeps(timed)) else Take(s, c, timed)
    case WakeUp(c) => Moves(s, c, Wakes(AtOf(s, c).timed))
    case Retry(c) =>
      var timed := AtOf(s, c).timed;
      if MustWait(s) && !timed then Moves(s, c, Sleeps(timed)) else Take(s, c, timed)
    case Accept(c) => Moves(s, c, Idle)
    case Free(c, b, quiet) =>
      Moves(s, c, if quiet then Idle else NotifiesOne).(free := s.free + [b], held := s.held - {b})
    case FreeAll(c, bs, quiet) =>
      Moves(s, c, if quiet then Idle else NotifiesAll).(free := s.free + bs, held := s.held - Elements(bs))
    case NotifyNobody(c) => Moves(s, c, Idle)
    case NotifyOne(c, w) => Moves(Moves(s, c, Idle), w, Wakes(AtOf(s, w).timed))
    case NotifyAll(c) =>
      var woken := map w | w in s.threads :: if s.threads[w].Sleeps? then Wakes(s.threads[w].timed) else s.threads[w];
      Moves(s.(threads := woken), c, Idle)
    case Lock(c, size) =>
      var need := Blocks(size, s.blockSize);
      if need < Availables(s) then s.(locked := s.locked + need, reserved := s.reserved + [size]) else s
    case Unlock(c, k) =>
      var need := Blocks(s.reserved[k], s.blockSize);
      Moves(s.(locked := if s.locked >= need then s.locked - need else 0,
               reserved := s.reserved[..k] + s.reserved[k + 1..]), c, NotifiesAll)
  }

  // ----- Conservation

  /** Every buffer made is either queued, once, or held; and there are no others. */
  ghost predicate Conserves(s: State) {
    && s.made <= s.max
    && Distinct(s.free)
    && (forall b :: b in s.free ==> b < s.made && b !in s.held)
    && (forall b :: b in s.held ==> b < s.made)
    && (forall b :: 0 <= b < s.made ==> b in s.free || b in s.held)
  }

  /** The blocks that have been reserved. */
  function Reserved(sizes: seq<nat>, blockSize: nat): nat
    requires blockSize > 0
  {
    if sizes == [] then 0 else Blocks(sizes[0], blockSize) + Reserved(sizes[1..], blockSize)
  }

  ghost predicate LocksReserved(s: State) {
    && s.blockSize > 0 && s.locked == Reserved(s.reserved, s.blockSize)
    && (s.locked > 0 ==> s.locked < s.max)
  }

  /** Only an `alloc` with a timeout returns null. */
  ghost predicate NullIsTimed(s: State) {
    forall c :: c in s.threads && s.threads[c].Returns? && s.threads[c].result.Null? ==> s.threads[c].timed
  }

  ghost predicate Inv(s: State) {
    Conserves(s) && LocksReserved(s) && NullIsTimed(s)
  }

  lemma TakeConserves(s: State, c: Thread, timed: bool)
    requires Conserves(s)
    ensures Conserves(Take(s, c, timed))
  {
    if s.free != [] {
      assert s.free == [s.free[0]] + s.free[1..];
      assert s.free[0] in s.free && s.free[0] !in s.free[1..];
      assert forall b :: b in s.free[1..] ==> b in s.free;
    }
  }

  lemma FreeConserves(s: State, bs: seq<Buffer>)
    requires Conserves(s) && Distinct(bs) && forall b :: b in bs ==> b in s.held
    ensures Conserves(s.(free := s.free + bs, held := s.held - Elements(bs)))
  {
    DistinctConcat(s.free, bs);
  }

  lemma DistinctConcat(a: seq<Buffer>, b: seq<Buffer>)
    requires Distinct(a) && Distinct(b) && forall x :: x in a ==> x !in b
    ensures Distinct(a + b)
  {
    var r := a + b;
    forall j, k | 0 <= j < k < |r|
      ensures r[j] != r[k]
    {
      if j < |a| <= k {
        assert r[j] in a && r[k] in b;
      }
    }
  }

  lemma StepConserves(s: State, step: Step)
    requires Conserves(s) && Enabled(s, step)
    ensures Conserves(After(s, step))
  {
    match step
    case Alloc(c, timed) => TakeConserves(s, c, timed);
    case Retry(c) => TakeConserves(s, c, AtOf(s, c).timed);
    case Free(c, b, quiet) =>
      FreeConserves(s, [b]);
      assert Elements([b]) == {b};
    case FreeAll(c, bs, quiet) => FreeConserves(s, bs);
    case _ =>
  }

  lemma {:induction false} ReservedOf(a: seq<nat>, b: seq<nat>, blockSize: nat)
    requires blockSize > 0
    ensures Reserved(a + b, blockSize) == Reserved(a, blockSize) + Reserved(b, blockSize)
  {
    if a == [] {
      assert a + b == b;
    } else {
      assert (a + b)[1..] == a[1..] + b;
      ReservedOf(a[1..], b, blockSize);
    }
  }

  lemma ReservedWithout(sizes: seq<nat>, k: nat, blockSize: nat)
    requires blockSize > 0 && k < |sizes|
    ensures Reserved(sizes, blockSize) ==
            Reserved(sizes[..k] + sizes[k + 1..], blockSize) + Blocks(sizes[k], blockSize)
  {
    hide Blocks;
    ReservedOf(sizes[..k], sizes[k..], blockSize);
    ReservedOf(sizes[..k], sizes[k + 1..], blockSize);
    assert sizes[..k] + sizes[k..] == sizes;
    assert sizes[k..][1..] == sizes[k + 1..];
  }

  lemma LockReserves(s: State, c: Thread, size: nat)
    requires Conserves(s) && LocksReserved(s) && Enabled(s, Lock(c, size))
    ensures LocksReserved(After(s, Lock(c, size)))
  {
    hide Blocks, Conserves;
    ReservedOf(s.reserved, [size], s.blockSize);
    assert [size][1..] == [];
    FreeFits(s);
  }

  lemma UnlockReleases(s: State, c: Thread, k: nat)
    requires LocksReserved(s) && Enabled(s, Unlock(c, k))
    ensures LocksReserved(After(s, Unlock(c, k)))
  {
    hide Blocks;
    ReservedWithout(s.reserved, k, s.blockSize);
  }

  lemma StepLocksReserved(s: State, step: Step)
    requires Conserves(s) && LocksReserved(s) && Enabled(s, step)
    ensures LocksReserved(After(s, step))
  {
    hide Blocks, Reserved, Conserves;
    match step
    case Lock(c, size) => LockReserves(s, c, size);
    case Unlock(c, k) => UnlockReleases(s, c, k);
    case _ =>
  }

  /** The buffers made are those queued and those held: the numbers agree. */
  lemma FreeFits(s: State)
    requires Conserves(s)
    ensures |s.free| + |s.held.Keys| == s.made
  {
    DistinctSize(s.free);
    assert Elements(s.free) !! s.held.Keys;
    assert Numbers(s.made) == Elements(s.free) + s.held.Keys;
  }

  ghost function Numbers(n: nat): (r: set<Buffer>)
    ensures |r| == n && forall b: Buffer :: b in r <==> b < n
  {
    if n == 0 then {} else Numbers(n - 1) + {n - 1}
  }

  lemma {:induction false} DistinctSize(bs: seq<Buffer>)
    requires Distinct(bs)
    ensures |Elements(bs)| == |bs|
  {
    if bs != [] {
      var n := |bs| - 1;
      DistinctSize(bs[..n]);
      assert bs[n] !in bs[..n];
      assert Elements(bs) == Elements(bs[..n]) + {bs[n]} by {
        assert bs == bs[..n] + [bs[n]];
      }
    }
  }

  lemma StepNullIsTimed(s: State, step: Step)
    requires NullIsTimed(s) && Enabled(s, step)
    ensures NullIsTimed(After(s, step))
  {
  }

  // ----- Wake-ups

  /** A notification is on its way to one sleeping thread, or has reached it. */
  predicate Helps(at: At) {
    at.Wakes? || at.NotifiesOne?
  }

  ghost function Helpers(threads: map<Thread, At>): set<Thread> {
    set c | c in threads && Helps(threads[c])
  }

  ghost predicate SomebodySleeps(s: State) {
    exists c :: c in s.threads && s.threads[c].Sleeps?
  }

  ghost predicate AllAreNotified(s: State) {
    exists c :: c in s.threads && s.threads[c].NotifiesAll?
  }

  /** While threads sleep, no more buffers are queued than threads are being woken. */
  ghost predicate KeepsAwake(s: State) {
    SomebodySleeps(s) ==> AllAreNotified(s) || |s.free| <= |Helpers(s.threads)|
  }

  predicate Quiet(step: Step) {
    (step.Free? || step.FreeAll?) && step.quiet
  }

  /** The buffers that a step puts back into the queue. */
  function Freed(step: Step): seq<Buffer> {
    match step
    case Free(c, b, quiet) => [b]
    case FreeAll(c, bs, quiet) => bs
    case _ => []
  }

  /** A free that notifies nobody does no harm: nobody sleeps, or enough threads are being woken already. */
  ghost predicate Harmless(s: State, step: Step) {
    Quiet(step) ==>
      !SomebodySleeps(s) || AllAreNotified(s) || |s.free| + |Freed(step)| <= |Helpers(s.threads)|
  }

  lemma HelpersAfter(threads: map<Thread, At>, c: Thread, at: At)
    ensures |Helpers(threads[c := at])| ==
            |Helpers(threads)| + (if Helps(at) then 1 else 0) - (if c in threads && Helps(threads[c]) then 1 else 0)
  {
    var before, after := Helpers(threads), Helpers(threads[c := at]);
    assert after - {c} == before - {c};
    assert |after| == |after - {c}| + if c in after then 1 else 0;
    assert |before| == |before - {c}| + if c in before then 1 else 0;
  }

  /** One thread moves on, and nobody but it falls asleep or is done notifying. */
  lemma MoveKeepsAwake(s: State, c: Thread, at: At, free: seq<Buffer>)
    requires KeepsAwake(s)
    requires at.Sleeps? ==> free == []
    requires at.NotifiesAll? || !AtOf(s, c).NotifiesAll?
    requires at.NotifiesAll? || free == []
             || |free| + (if Helps(AtOf(s, c)) then 1 else 0) <= |s.free| + (if Helps(at) then 1 else 0)
    ensures KeepsAwake(Moves(s, c, at).(free := free))
  {
    hide Helpers, Helps;
    var s' := Moves(s, c, at).(free := free);
    HelpersAfter(s.threads, c, at);
    assert c in s.threads ==> AtOf(s, c) == s.threads[c];
    assert c !in s.threads ==> !Helps(AtOf(s, c)) by {
      IdleDoesNotHelp();
    }
    if SomebodySleeps(s') && free != [] {
      var w :| w in s'.threads && s'.threads[w].Sleeps?;
      assert w in s.threads && s.threads[w].Sleeps?;
      if AllAreNotified(s) {
        var n :| n in s.threads && s.threads[n].NotifiesAll?;
        assert n in s'.threads && s'.threads[n].NotifiesAll?;
      }
      assert c in s'.threads;
    }
  }

  lemma IdleDoesNotHelp()
    ensures !Helps(Idle)
  {
  }

  lemma NotifyOneKeepsAwake(s: State, c: Thread, w: Thread)
    requires KeepsAwake(s) && Enabled(s, NotifyOne(c, w))
    ensures KeepsAwake(After(s, NotifyOne(c, w)))
  {
    hide Helpers;
    var s' := After(s, NotifyOne(c, w));
    HelpersAfter(s.threads, c, Idle);
    HelpersAfter(s.threads[c := Idle], w, Wakes(AtOf(s, w).timed));
    assert SomebodySleeps(s) by {
      assert w in s.threads;
    }
    if AllAreNotified(s) {
      var n :| n in s.threads && s.threads[n].NotifiesAll?;
      assert n in s'.threads && s'.threads[n].NotifiesAll?;
    }
  }

  /** What a quiet free changes: the queue, and nothing about who sleeps or is being woken. */
  lemma QuietFreeWakesNobody(s: State, step: Step)
    requires Enabled(s, step) && Quiet(step)
    ensures After(s, step).free == s.free + Freed(step)
    ensures |Helpers(After(s, step).threads)| == |Helpers(s.threads)|
    ensures SomebodySleeps(After(s, step)) <==> SomebodySleeps(s)
    ensures AllAreNotified(After(s, step)) <==> AllAreNotified(s)
  {
    hide Helpers;
    var c := step.c;
    var s' := After(s, step);
    HelpersAfter(s.threads, c, Idle);
    assert s'.threads == s.threads[c := Idle] && AtOf(s, c).Idle?;
    forall w | w in s.threads && !s.threads[w].Idle?
      ensures w in s'.threads && s'.threads[w] == s.threads[w]
    {
    }
  }

  /** Exactly when a quiet free leaves as many threads awake as it must. */
  lemma QuietFreeKeepsAwake(s: State, step: Step)
    requires KeepsAwake(s) && Enabled(s, step) && Quiet(step)
    ensures KeepsAwake(After(s, step)) <==> Harmless(s, step)
  {
    hide Helpers, SomebodySleeps, AllAreNotified;
    QuietFreeWakesNobody(s, step);
  }

  /** A thread sleeps while a buffer is queued, and nobody is being woken or going to notify. */
  ghost predicate WakeUpIsLost(s: State) {
    SomebodySleeps(s) && s.free != [] && !AllAreNotified(s) && Helpers(s.threads) == {}
  }

  lemma AwakeLosesNothing(s: State)
    requires KeepsAwake(s)
    ensures !WakeUpIsLost(s)
  {
    if Helpers(s.threads) == {} {
      assert |Helpers(s.threads)| == 0;
    }
  }

  /** Exactly when a quiet free loses a wake-up there and then: a thread sleeps and nothing is on its way to any. */
  lemma QuietFreeLoses(s: State, step: Step)
    requires KeepsAwake(s) && Enabled(s, step) && Quiet(step)
    ensures WakeUpIsLost(After(s, step)) <==>
            SomebodySleeps(s) && !AllAreNotified(s) && Helpers(s.threads) == {} && Freed(step) != []
  {
    hide Helpers, SomebodySleeps, AllAreNotified;
    QuietFreeWakesNobody(s, step);
    var before, after := Helpers(s.threads), Helpers(After(s, step).threads);
    assert |before| == 0 <==> before == {};
    assert |after| == 0 <==> after == {};
  }

  /** No wake-up is lost as long as quiet frees do no harm. */
  lemma StepKeepsAwake(s: State, step: Step)
    requires KeepsAwake(s) && Enabled(s, step) && Harmless(s, step)
    ensures KeepsAwake(After(s, step))
  {
    if Quiet(step) {
      QuietFreeKeepsAwake(s, step);
    } else {
      LoudStepKeepsAwake(s, step);
    }
  }

  lemma LoudStepKeepsAwake(s: State, step: Step)
    requires KeepsAwake(s) && Enabled(s, step) && !Quiet(step)
    ensures KeepsAwake(After(s, step))
  {
    match step
    case Alloc(c, timed) =>
      if MustWait(s) {
        MoveKeepsAwake(s, c, Sleeps(timed), s.free);
      } else {
        TakeKeepsAwake(s, c, timed);
      }
    case WakeUp(c) => MoveKeepsAwake(s, c, Wakes(AtOf(s, c).timed), s.free);
    case Retry(c) =>
      if MustWait(s) && !AtOf(s, c).timed {
        MoveKeepsAwake(s, c, Sleeps(false), s.free);
      } else {
        TakeKeepsAwake(s, c, AtOf(s, c).timed);
      }
    case Accept(c) => MoveKeepsAwake(s, c, Idle, s.free);
    case Free(c, b, quiet) => MoveKeepsAwake(s, c, NotifiesOne, s.free + [b]);
    case FreeAll(c, bs, quiet) => MoveKeepsAwake(s, c, NotifiesAll, s.free + bs);
    case NotifyNobody(c) => assert !SomebodySleeps(After(s, step));
    case NotifyOne(c, w) => NotifyOneKeepsAwake(s, c, w);
    case NotifyAll(c) => assert !SomebodySleeps(After(s, step));
    case Lock(c, size) =>
    case Unlock(c, k) => MoveKeepsAwake(s, c, NotifiesAll, s.free);
  }

  lemma TakeKeepsAwake(s: State, c: Thread, timed: bool)
    requires KeepsAwake(s) && (AtOf(s, c).Idle? || AtOf(s, c).Wakes?)
    ensures KeepsAwake(Take(s, c, timed))
  {
    if s.free != [] {
      MoveKeepsAwake(s, c, Returns(Got(s.free[0]), timed), s.free[1..]);
    } else {
      MoveKeepsAwake(s, c, Take(s, c, timed).threads[c], []);
    }
  }

  // ----- Runs

  /** Some interleaving leads from one state to another. */
  ghost predicate Leads(s: State, steps: seq<Step>, s': State)
    decreases |steps|
  {
    if steps == [] then s == s'
    else Enabled(s, steps[0]) && Leads(After(s, steps[0]), steps[1..], s')
  }

  lemma {:induction false} RunKeepsInv(s: State, steps: seq<Step>, s': State)
    requires Inv(s) && Leads(s, steps, s')
    ensures Inv(s')
    decreases |steps|
  {
    hide Conserves, LocksReserved, NullIsTimed, Enabled, After;
    if steps != [] {
      StepConserves(s, steps[0]);
      StepLocksReserved(s, steps[0]);
      StepNullIsTimed(s, steps[0]);
      RunKeepsInv(After(s, steps[0]), steps[1..], s');
    }
  }

  /** Every quiet free of the run does no harm where it happens. */
  ghost predicate HarmlessRun(s: State, steps: seq<Step>)
    decreases |steps|
  {
    steps == [] ||
    (Enabled(s, steps[0]) && Harmless(s, steps[0]) && HarmlessRun(After(s, steps[0]), steps[1..]))
  }

  lemma {:induction false} RunKeepsAwake(s: State, steps: seq<Step>, s': State)
    requires KeepsAwake(s) && Leads(s, steps, s') && HarmlessRun(s, steps)
    ensures KeepsAwake(s')
    decreases |steps|
  {
    hide KeepsAwake, Enabled, After, Harmless;
    if steps != [] {
      StepKeepsAwake(s, steps[0]);
      RunKeepsAwake(After(s, steps[0]), steps[1..], s');
    }
  }

  /** Without quiet frees there is nothing to do harm. */
  lemma {:induction false} LoudRunIsHarmless(s: State, steps: seq<Step>, s': State)
    requires Leads(s, steps, s') && forall step :: step in steps ==> !Quiet(step)
    ensures HarmlessRun(s, steps)
    decreases |steps|
  {
    hide Enabled, After, Quiet;
    if steps != [] {
      assert steps[0] in steps;
      LoudRunIsHarmless(After(s, steps[0]), steps[1..], s');
    }
  }

  /**
   In every run: the buffers made are as many as those queued and those held, and no more than the
   maximum; none is queued twice or both queued and held; the blocks locked are those reserved;
   and an `alloc` without a timeout does not return null.
   */
  lemma Conservation(max: nat, blockSize: nat, steps: seq<Step>, s: State)
    requires blockSize > 0 && Leads(Init(max, blockSize), steps, s)
    ensures s.made == |s.free| + |s.held| && s.made <= s.max
    ensures Distinct(s.free) && forall b :: b in s.free ==> b !in s.held
    ensures s.blockSize > 0 && s.locked == Reserved(s.reserved, s.blockSize)
    ensures forall c :: c in s.threads && s.threads[c].Returns? && !s.threads[c].timed ==> s.threads[c].result.Got?
  {
    RunKeepsInv(Init(max, blockSize), steps, s);
    FreeFits(s);
    assert |s.held| == |s.held.Keys|;
  }

  lemma HeldAndQueued(max: nat, blockSize: nat, steps: seq<Step>, s: State)
    requires blockSize > 0 && Leads(Init(max, blockSize), steps, s)
    ensures |s.free| + |s.held| == s.made <= s.max == max && s.blockSize == blockSize
  {
    RunKeepsInv(Init(max, blockSize), steps, s);
    FreeFits(s);
    assert |s.held| == |s.held.Keys|;
    SizesStay(Init(max, blockSize), steps, s);
  }

  lemma {:induction false} SizesStay(s: State, steps: seq<Step>, s': State)
    requires Leads(s, steps, s')
    ensures s'.max == s.max && s'.blockSize == s.blockSize
    decreases |steps|
  {
    if steps != [] {
      SizesStay(After(s, steps[0]), steps[1..], s');
    }
  }

  /**
   In every run: blocks are locked exactly if they, those locked already and the buffers that clients
   hold are together fewer than the maximum.
   */
  lemma LocksIfThereIsRoom(max: nat, blockSize: nat, steps: seq<Step>, s: State, c: Thread, size: nat, need: nat)
    requires blockSize > 0 && Leads(Init(max, blockSize), steps, s) && AtOf(s, c) == Idle
    requires size <= need * blockSize < size + blockSize // so many blocks have room, and one less has not
    ensures Enabled(s, Lock(c, size))
    ensures var s' := After(s, Lock(c, size));
            if need + s.locked + |s.held| < max then
              s'.locked == s.locked + need && s'.reserved == s.reserved + [size]
            else s' == s
  {
    hide Leads, Blocks;
    HeldAndQueued(max, blockSize, steps, s);
    BlocksIsLeast(size, blockSize, need);
    if need > 0 {
      assert (need - 1) * blockSize == need * blockSize - blockSize;
      BlocksIsLeast(size, blockSize, need - 1);
    }
  }

  /** A thread that holds buffers can free them: they are queued behind the others, in their order. */
  lemma FreeQueues(s: State, c: Thread, bs: seq<Buffer>, quiet: bool)
    requires AtOf(s, c) == Idle && forall b :: b in bs ==> b in s.held && s.held[b] == c
    requires forall j, k :: 0 <= j < k < |bs| ==> bs[j] != bs[k]
    ensures Enabled(s, FreeAll(c, bs, quiet))
    ensures var s' := After(s, FreeAll(c, bs, quiet));
            && s'.free == s.free + bs && (forall b :: b in s'.held <==> b in s.held && b !in bs)
            && (forall b :: b in s'.held ==> s'.held[b] == s.held[b])
            && s'.threads == s.threads[c := if quiet then Idle else NotifiesAll]
            && s'.made == s.made && s'.locked == s.locked
    ensures |bs| == 1 ==>
              && Enabled(s, Free(c, bs[0], quiet))
              && After(s, Free(c, bs[0], quiet)) ==
                 After(s, FreeAll(c, bs, quiet)).(threads := s.threads[c := if quiet then Idle else NotifiesOne])
  {
    if |bs| == 1 {
      assert Elements(bs) == {bs[0]} && bs == [bs[0]];
    }
  }

  /** Unlocking gives back what was locked for that reservation, and then notifies everybody. */
  lemma UnlocksWhatWasLocked(max: nat, blockSize: nat, steps: seq<Step>, s: State, c: Thread, k: nat, need: nat)
    requires blockSize > 0 && Leads(Init(max, blockSize), steps, s) && AtOf(s, c) == Idle && k < |s.reserved|
    requires s.reserved[k] <= need * blockSize < s.reserved[k] + blockSize
    ensures s.blockSize > 0 && Enabled(s, Unlock(c, k))
    ensures var s' := After(s, Unlock(c, k));
            s.locked == s'.locked + need && s'.reserved == s.reserved[..k] + s.reserved[k + 1..]
    ensures c in After(s, Unlock(c, k)).threads && After(s, Unlock(c, k)).threads[c].NotifiesAll?
  {
    hide Leads, Blocks;
    RunKeepsInv(Init(max, blockSize), steps, s);
    HeldAndQueued(max, blockSize, steps, s);
    BlocksIsLeast(s.reserved[k], blockSize, need);
    ReservedWithout(s.reserved, k, blockSize);
    if need > 0 {
      assert (need - 1) * blockSize == need * blockSize - blockSize;
      BlocksIsLeast(s.reserved[k], blockSize, need - 1);
    }
  }

  /**
   In every run: `alloc` waits exactly if clients hold as many buffers as there may be, and otherwise
   returns the one that is queued longest, or a new one if none is queued.
   */
  lemma AllocServes(max: nat, blockSize: nat, steps: seq<Step>, s: State, c: Thread, timed: bool)
    requires blockSize > 0 && Leads(Init(max, blockSize), steps, s) && AtOf(s, c) == Idle
    ensures Enabled(s, Alloc(c, timed))
    ensures var s' := After(s, Alloc(c, timed));
            if |s.held| >= max then
              s' == s.(threads := s.threads[c := Sleeps(timed)])
            else
              var b := if s.free != [] then s.free[0] else s.made;
              && s'.threads == s.threads[c := Returns(Got(b), timed)]
              && b !in s.held && s'.held == s.held[b := c]
              && s'.free == (if s.free != [] then s.free[1..] else [])
              && s'.made == s.made + (if s.free != [] then 0 else 1)
  {
    hide Leads;
    RunKeepsInv(Init(max, blockSize), steps, s);
    HeldAndQueued(max, blockSize, steps, s);
  }

  /** A woken `alloc` does the same, except that one with a timeout gives up instead of waiting again. */
  lemma RetryServes(max: nat, blockSize: nat, steps: seq<Step>, s: State, c: Thread)
    requires blockSize > 0 && Leads(Init(max, blockSize), steps, s) && AtOf(s, c).Wakes?
    ensures Enabled(s, Retry(c))
    ensures var s', timed := After(s, Retry(c)), AtOf(s, c).timed;
            if |s.held| >= max then
              s' == s.(threads := s.threads[c := if timed then Returns(Null, true) else Sleeps(false)])
            else
              var b := if s.free != [] then s.free[0] else s.made;
              && s'.threads == s.threads[c := Returns(Got(b), timed)]
              && b !in s.held && s'.held == s.held[b := c]
              && s'.free == (if s.free != [] then s.free[1..] else [])
              && s'.made == s.made + (if s.free != [] then 0 else 1)
  {
    hide Leads;
    RunKeepsInv(Init(max, blockSize), steps, s);
    HeldAndQueued(max, blockSize, steps, s);
  }

  /**
   In a run whose quiet frees do no harm, some thread is about to be woken when one sleeps while a
   buffer is queued.
   */
  lemma NoWakeUpIsLost(max: nat, blockSize: nat, steps: seq<Step>, s: State, c: Thread)
    requires Leads(Init(max, blockSize), steps, s) && HarmlessRun(Init(max, blockSize), steps)
    requires c in s.threads && s.threads[c].Sleeps? && s.free != []
    ensures exists w :: w in s.threads && (Helps(s.threads[w]) || s.threads[w].NotifiesAll?)
  {
    RunKeepsAwake(Init(max, blockSize), steps, s);
    AwakeLosesNothing(s);
    if !AllAreNotified(s) {
      var w :| w in Helpers(s.threads);
    }
  }

  lemma LeadsOn(s: State, step: Step, rest: seq<Step>, s': State)
    requires Enabled(s, step) && Leads(After(s, step), rest, s')
    ensures Leads(s, [step] + rest, s')
  {
    assert ([step] + rest)[1..] == rest;
  }

  /** A quiet free that does harm: a thread sleeps, a buffer is queued, and nobody is going to notify. */
  lemma QuietFreeLosesWakeUp()
    ensures var s := State(1, 1, [0], 1, 0, map[0 := Idle, 1 := Sleeps(false)], map[], []);
            Leads(Init(1, 1), [Alloc(0, false), Accept(0), Alloc(1, false), Free(0, 0, true)], s) && WakeUpIsLost(s)
  {
    hide Leads, Helpers;
    var s0 := Init(1, 1);
    var s1 := State(1, 1, [], 1, 0, map[0 := Returns(Got(0), false)], map[0 := 0], []);
    var s2 := State(1, 1, [], 1, 0, map[0 := Idle], map[0 := 0], []);
    var s3 := State(1, 1, [], 1, 0, map[0 := Idle, 1 := Sleeps(false)], map[0 := 0], []);
    var s4 := State(1, 1, [0], 1, 0, map[0 := Idle, 1 := Sleeps(false)], map[], []);
    var free, sleep, accept := Free(0, 0, true), Alloc(1, false), Accept(0);
    LeadsNowhere(s4);
    assert After(s3, free) == s4;
    LeadsOn(s3, free, [], s4);
    assert [free] + [] == [free] && [sleep] + [free] == [sleep, free];
    assert After(s2, sleep) == s3;
    LeadsOn(s2, sleep, [free], s4);
    assert [accept] + [sleep, free] == [accept, sleep, free];
    assert After(s1, accept) == s2;
    LeadsOn(s1, accept, [sleep, free], s4);
    assert [Alloc(0, false)] + [accept, sleep, free] == [Alloc(0, false), accept, sleep, free];
    assert After(s0, Alloc(0, false)) == s1;
    LeadsOn(s0, Alloc(0, false), [accept, sleep, free], s4);
    NobodyIsWoken(s4);
  }

  lemma LeadsNowhere(s: State)
    ensures Leads(s, [], s)
  {
  }

  lemma NobodyIsWoken(s: State)
    requires s.threads == map[0 := Idle, 1 := Sleeps(false)] && s.free != []
    ensures WakeUpIsLost(s)
  {
    assert s.threads[1].Sleeps?;
  }
}
