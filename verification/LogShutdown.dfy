/**
 How the log is shut down, after lib/dtv-util/src/log/statics.cpp and target.cpp, as a state
 machine: any number of threads that transmit a message, one logger thread for every target, and
 any number of threads that call `finStatics`.  A step is one action of one thread.
 */
module LogShutdown {

  type Thread = nat

  /** A line is known by the thread that transmits it; a thread transmits one. */
  type Line = Thread

  datatype Owner = Free | Sender(t: Thread) | Finisher(f: Thread)

  /** Where `transmitMessage` is. */
  datatype SendAt =
    | Begins
    | Looks               // holds the init mutex
    | ToCount
    | Counts              // and the count mutex
    | Counted
    | Admitted            // the init mutex only
    | Receives(i: nat)    // hands the line to the `i`th target
    | ToUncount
    | Uncounts            // holds the count mutex
    | Notifies
    | Leaves
    | Sent
    | Rejected

  /** Where `finStatics` is. */
  datatype FinAt =
    | Starts
    | ToCheck             // holds the init mutex from here on
    | Checks              // and the count mutex
    | Waits
    | Wakes
    | Leaves
    | Verifies
    | Ends(i: nat)        // `fin` of the `i`th target
    | Joins(i: nat)
    | Deletes(i: nat)
    | Clears
    | Finished
    | Thrown

  datatype LoggerAt = ReadsFin | Collects | Outputs | LastLines | Done

  datatype Target = Target(
    lines: seq<Line>, fin: bool, deleted: bool, logger: LoggerAt, local: seq<Line>,
    // history: what was put in the queue, and what was written
    queued: seq<Line>, written: seq<Line>)

  datatype State = State(
    initMutex: Owner, countMutex: Owner, initialized: bool, transmitting: int,
    targets: seq<Target>, senders: map<Thread, SendAt>, finishers: map<Thread, FinAt>)

  const NEW_TARGET := Target([], false, false, ReadsFin, [], [], [])

  /** The log has been initialised and has `n` targets. */
  function Init(n: nat): State {
    State(Free, Free, true, 0, seq(n, i => NEW_TARGET), map[], map[])
  }

  datatype Step =
    | SendStep(t: Thread)
    | FinStep(f: Thread)
    | FinWakesUnasked(f: Thread)
    | LogStep(i: nat)

  // ----- Transmitting

  predicate SendEnabled(s: State, t: Thread) {
    if t !in s.senders then true
    else
      match s.senders[t]
      case Begins => s.initMutex.Free?
      case ToCount | ToUncount => s.countMutex.Free?
      case Sent | Rejected => false
      case _ => true
  }

  function Sending(s: State, t: Thread, at: SendAt): State {
    s.(senders := s.senders[t := at])
  }

  function AfterSend(s: State, t: Thread): State
    requires SendEnabled(s, t)
  {
    if t !in s.senders then Sending(s, t, Begins)
    else
      match s.senders[t]
      case Begins => Sending(s, t, Looks).(initMutex := Sender(t))
      case Looks => if s.initialized then Sending(s, t, ToCount) else Sending(s, t, Rejected).(initMutex := Free)
      case ToCount => Sending(s, t, Counts).(countMutex := Sender(t))
      case Counts => Sending(s, t, Counted).(transmitting := s.transmitting + 1)
      case Counted => Sending(s, t, Admitted).(countMutex := Free)
      case Admitted => Sending(s, t, Receives(0)).(initMutex := Free)
      case Receives(i) =>
        if i < |s.targets| then Sending(s, t, Receives(i + 1)).(targets := s.targets[i := Received(s.targets[i], t)])
        else Sending(s, t, ToUncount)
      case ToUncount => Sending(s, t, Uncounts).(countMutex := Sender(t))
      case Uncounts => Sending(s, t, Notifies).(transmitting := s.transmitting - 1)
      case Notifies => NotifyOne(Sending(s, t, SendAt.Leaves))
      case Leaves => Sending(s, t, Sent).(countMutex := Free)
      case Sent | Rejected => s
  }

  /** `receive`. */
  function Received(x: Target, line: Line): Target {
    x.(lines := x.lines + [line], queued := x.queued + [line])
  }

  /** Wakes the finisher that waits; there is never more than one. */
  function NotifyOne(s: State): State {
    s.(finishers := map f | f in s.finishers :: if s.finishers[f].Waits? then Wakes else s.finishers[f])
  }

  // ----- Finishing

  predicate FinEnabled(s: State, f: Thread) {
    if f !in s.finishers then true
    else
      match s.finishers[f]
      case Starts => s.initMutex.Free?
      case ToCheck | Wakes => s.countMutex.Free?
      case Waits | Finished | Thrown => false
      case Joins(i) => i < |s.targets| && s.targets[i].logger.Done?
      case _ => true
  }

  function Finishing(s: State, f: Thread, at: FinAt): State {
    s.(finishers := s.finishers[f := at])
  }

  function AfterFin(s: State, f: Thread): State
    requires FinEnabled(s, f)
  {
    if f !in s.finishers then Finishing(s, f, Starts)
    else
      match s.finishers[f]
      case Starts => Finishing(s, f, ToCheck).(initMutex := Finisher(f))
      case ToCheck | Wakes => Finishing(s, f, Checks).(countMutex := Finisher(f))
      case Checks =>
        if s.transmitting != 0 then Finishing(s, f, Waits).(countMutex := Free) else Finishing(s, f, FinAt.Leaves)
      case Leaves => Finishing(s, f, Verifies).(countMutex := Free)
      case Verifies =>
        if s.initialized then Finishing(s, f, Ends(0)).(initialized := false) else Finishing(s, f, Thrown)
      case Ends(i) =>
        if i < |s.targets| then Finishing(s, f, Joins(i)).(targets := s.targets[i := s.targets[i].(fin := true)])
        else Finishing(s, f, Clears)
      case Joins(i) => Finishing(s, f, Deletes(i))
      case Deletes(i) =>
        if i < |s.targets| then Finishing(s, f, Ends(i + 1)).(targets := s.targets[i := s.targets[i].(deleted := true)])
        else s
      case Clears => Finishing(s, f, Finished).(initMutex := Free)
      case Waits | Finished | Thrown => s
  }

  // ----- Logging

  function AfterLog(x: Target): Target {
    match x.logger
    case ReadsFin => x.(logger := if x.fin then LastLines else Collects)
    case Collects => x.(logger := Outputs, local := x.lines, lines := [])
    case Outputs =>
      if x.local == [] then x.(logger := ReadsFin)
      else x.(written := x.written + [x.local[0]], local := x.local[1..])
    case LastLines => // without the mutex of the queue
      if x.lines == [] then x.(logger := Done)
      else x.(written := x.written + [x.lines[0]], lines := x.lines[1..])
    case Done => x
  }

  predicate Enabled(s: State, step: Step) {
    match step
    case SendStep(t) => SendEnabled(s, t)
    case FinStep(f) => FinEnabled(s, f)
    case FinWakesUnasked(f) => f in s.finishers && s.finishers[f].Waits?
    case LogStep(i) => i < |s.targets| && !s.targets[i].logger.Done?
  }

  function After(s: State, step: Step): State
    requires Enabled(s, step)
  {
    match step
    case SendStep(t) => AfterSend(s, t)
    case FinStep(f) => AfterFin(s, f)
    case FinWakesUnasked(f) => Finishing(s, f, Wakes)
    case LogStep(i) => s.(targets := s.targets[i := AfterLog(s.targets[i])])
  }

  // ----- The mutexes

  predicate SendHoldsInit(at: SendAt) {
    at.Looks? || at.ToCount? || at.Counts? || at.Counted? || at.Admitted?
  }

  predicate SendHoldsCount(at: SendAt) {
    at.Counts? || at.Counted? || at.Uncounts? || at.Notifies? || at.Leaves?
  }

  /** Also after it has thrown. */
  predicate FinHoldsInit(at: FinAt) {
    !at.Starts? && !at.Finished?
  }

  predicate FinHoldsCount(at: FinAt) {
    at.Checks? || at.Leaves?
  }

  ghost predicate Excludes(s: State) {
    ExcludesInit(s) && ExcludesCount(s)
  }

  ghost predicate ExcludesInit(s: State) {
    && (forall t :: t in s.senders ==> (SendHoldsInit(s.senders[t]) <==> s.initMutex == Sender(t)))
    && (forall f :: f in s.finishers ==> (FinHoldsInit(s.finishers[f]) <==> s.initMutex == Finisher(f)))
    && Known(s, s.initMutex)
  }

  ghost predicate ExcludesCount(s: State) {
    && (forall t :: t in s.senders ==> (SendHoldsCount(s.senders[t]) <==> s.countMutex == Sender(t)))
    && (forall f :: f in s.finishers ==> (FinHoldsCount(s.finishers[f]) <==> s.countMutex == Finisher(f)))
    && Known(s, s.countMutex)
  }

  ghost predicate Known(s: State, o: Owner) {
    match o
    case Free => true
    case Sender(t) => t in s.senders
    case Finisher(f) => f in s.finishers
  }

  // ----- The count

  /** The thread has counted itself and not yet uncounted itself. */
  predicate IsCounted(at: SendAt) {
    at.Counted? || at.Admitted? || at.Receives? || at.ToUncount? || at.Uncounts?
  }

  ghost function InProgress(senders: map<Thread, SendAt>): set<Thread> {
    set t | t in senders && IsCounted(senders[t])
  }

  ghost predicate CountsSenders(s: State) {
    s.transmitting == |InProgress(s.senders)|
  }

  // ----- Shutting down

  /** `finStatics` has found that nobody transmits. */
  predicate SawNobody(at: FinAt) {
    at.Leaves? || at.Verifies? || Closing(at)
  }

  /** `finStatics` has closed the log and is ending the targets. */
  predicate Closing(at: FinAt) {
    at.Ends? || at.Joins? || at.Deletes? || at.Clears?
  }

  ghost predicate ShutsDown(s: State) {
    && (!s.initialized ==> s.transmitting == 0)
    && (forall f :: f in s.finishers && SawNobody(s.finishers[f]) ==> s.transmitting == 0)
    && (forall f :: f in s.finishers && (Closing(s.finishers[f]) || s.finishers[f].Finished?) ==> !s.initialized)
    && (forall i :: 0 <= i < |s.targets| && (s.targets[i].fin || s.targets[i].deleted) ==> !s.initialized)
    && (forall t :: t in s.senders && (s.senders[t].ToCount? || s.senders[t].Counts?) ==> s.initialized)
  }

  /** The targets before the `i`th are deleted. */
  ghost predicate DeletedUpTo(targets: seq<Target>, i: nat) {
    i <= |targets| && forall j :: 0 <= j < i ==> targets[j].deleted
  }

  /** The targets are ended and deleted one after another. */
  ghost predicate DeletesInOrder(targets: seq<Target>, at: FinAt) {
    match at
    case Ends(i) => DeletedUpTo(targets, i)
    case Joins(i) => DeletedUpTo(targets, i) && i < |targets| && targets[i].fin
    case Deletes(i) => DeletedUpTo(targets, i) && i < |targets| && targets[i].logger.Done?
    case Clears | Finished => DeletedUpTo(targets, |targets|)
    case _ => true
  }

  // ----- The lines

  ghost predicate KeepsLines(x: Target) {
    && x.queued == x.written + x.local + x.lines
    && (x.logger.LastLines? ==> x.fin && x.local == [])
    && (x.logger.Done? ==> x.fin && x.local == [] && x.lines == [])
    && (x.logger.ReadsFin? || x.logger.Collects? ==> x.local == [])
    && (x.deleted ==> x.logger.Done?)
  }

  /** The thread has handed its line to the `i`th target. */
  predicate Passed(at: SendAt, i: nat) {
    match at
    case Receives(j) => i < j
    case ToUncount | Uncounts | Notifies | Leaves | Sent => true
    case _ => false
  }

  ghost predicate Once(lines: seq<Line>) {
    forall j, k :: 0 <= j < k < |lines| ==> lines[j] != lines[k]
  }

  /** The queue of a target has got every line once, and none that was not handed to it. */
  ghost predicate Delivers(s: State, i: nat)
    requires i < |s.targets|
  {
    && Once(s.targets[i].queued)
    && forall t :: t in s.targets[i].queued <==> t in s.senders && Passed(s.senders[t], i)
  }

  /** A finisher that waits while nobody transmits is about to be notified. */
  ghost predicate KeepsAwake(s: State) {
    (exists f :: f in s.finishers && s.finishers[f].Waits?) ==>
      s.transmitting != 0 || exists t :: t in s.senders && s.senders[t].Notifies?
  }

  ghost predicate Inv(s: State) {
    && Excludes(s) && CountsSenders(s) && ShutsDown(s)
    && AllInOrder(s) && KeepsAwake(s) && IsClosed(s)
    && forall i :: 0 <= i < |s.targets| ==> KeepsLines(s.targets[i]) && Delivers(s, i)
  }

  lemma NobodyInProgress(s: State, t: Thread)
    requires CountsSenders(s) && s.transmitting == 0 && t in s.senders
    ensures !IsCounted(s.senders[t])
  {
    assert t in InProgress(s.senders) <==> IsCounted(s.senders[t]);
  }

  lemma SendKeepsInit(s: State, t: Thread)
    requires ExcludesInit(s) && SendEnabled(s, t)
    ensures ExcludesInit(AfterSend(s, t))
  {
  }

  lemma SendKeepsCountMutex(s: State, t: Thread)
    requires ExcludesCount(s) && SendEnabled(s, t)
    ensures ExcludesCount(AfterSend(s, t))
  {
  }

  lemma FinKeepsInit(s: State, f: Thread)
    requires ExcludesInit(s) && FinEnabled(s, f)
    ensures ExcludesInit(AfterFin(s, f))
  {
  }

  lemma FinKeepsCountMutex(s: State, f: Thread)
    requires ExcludesCount(s) && FinEnabled(s, f)
    ensures ExcludesCount(AfterFin(s, f))
  {
  }

  lemma NumberAfter(senders: map<Thread, SendAt>, t: Thread, at: SendAt)
    ensures |InProgress(senders[t := at])| ==
            |InProgress(senders)| + (if IsCounted(at) then 1 else 0)
            - (if t in senders && IsCounted(senders[t]) then 1 else 0)
  {
    var before, after := InProgress(senders), InProgress(senders[t := at]);
    assert after - {t} == before - {t};
    assert |after| == |after - {t}| + if t in after then 1 else 0;
    assert |before| == |before - {t}| + if t in before then 1 else 0;
  }

  lemma SendKeepsCount(s: State, t: Thread)
    requires CountsSenders(s) && SendEnabled(s, t)
    ensures CountsSenders(AfterSend(s, t))
  {
    hide InProgress, AfterSend, IsCounted;
    CountFollows(s, t);
    NumberAfter(s.senders, t, AfterSend(s, t).senders[t]);
  }

  lemma FinKeepsCount(s: State, f: Thread)
    requires CountsSenders(s) && FinEnabled(s, f)
    ensures CountsSenders(AfterFin(s, f))
  {
  }

  lemma CountIsNatural(s: State)
    requires CountsSenders(s)
    ensures s.transmitting >= 0
  {
  }

  lemma CountFollows(s: State, t: Thread)
    requires SendEnabled(s, t)
    ensures var s' := AfterSend(s, t);
            && t in s'.senders && s'.senders == s.senders[t := s'.senders[t]]
            && s'.transmitting == s.transmitting + (if IsCounted(s'.senders[t]) then 1 else 0)
                                  - (if t in s.senders && IsCounted(s.senders[t]) then 1 else 0)
  {
  }

  lemma SendKeepsShutdown(s: State, t: Thread)
    requires Inv(s) && SendEnabled(s, t)
    ensures ShutsDown(AfterSend(s, t))
  {
    if t in s.senders && s.transmitting == 0 {
      NobodyInProgress(s, t);
    }
  }

  lemma FinKeepsShutdown(s: State, f: Thread)
    requires Inv(s) && FinEnabled(s, f)
    ensures ShutsDown(AfterFin(s, f))
  {
  }

  lemma SendKeepsLines(s: State, t: Thread, i: nat)
    requires Inv(s) && SendEnabled(s, t) && i < |s.targets|
    ensures KeepsLines(AfterSend(s, t).targets[i])
  {
    if t in s.senders && s.transmitting == 0 {
      NobodyInProgress(s, t);
    }
  }

  lemma FinKeepsLines(s: State, f: Thread, i: nat)
    requires Inv(s) && FinEnabled(s, f) && i < |s.targets|
    ensures KeepsLines(AfterFin(s, f).targets[i])
  {
  }

  lemma LogKeepsLines(x: Target)
    requires KeepsLines(x)
    ensures KeepsLines(AfterLog(x))
  {
  }

  lemma OnceMore(lines: seq<Line>, line: Line)
    requires Once(lines) && line !in lines
    ensures Once(lines + [line])
  {
  }

  lemma SendKeepsDelivery(s: State, t: Thread, i: nat)
    requires SendEnabled(s, t) && i < |s.targets| && Delivers(s, i)
    ensures Delivers(AfterSend(s, t), i)
  {
    hide Once, AfterSend, SendEnabled, Passed;
    var queued := s.targets[i].queued;
    if t !in queued {
      OnceMore(queued, t);
    }
    QueuedAfterSend(s, t, i);
    PassedAfterSend(s, t, i);
    forall u
      ensures u in AfterSend(s, t).targets[i].queued <==>
              u in AfterSend(s, t).senders && Passed(AfterSend(s, t).senders[u], i)
    {
      assert u in queued <==> u in s.senders && Passed(s.senders[u], i);
    }
  }

  /** A thread has passed a target when it has handed it the line, and the others stay where they are. */
  lemma PassedAfterSend(s: State, t: Thread, i: nat)
    requires SendEnabled(s, t) && i < |s.targets|
    ensures var s' := AfterSend(s, t);
            && s'.senders.Keys == s.senders.Keys + {t}
            && (Passed(s'.senders[t], i) <==>
                t in s.senders && (Passed(s.senders[t], i) || s.senders[t] == Receives(i)))
            && forall u :: u in s.senders && u != t ==> s'.senders[u] == s.senders[u]
    ensures t in s.senders && s.senders[t] == Receives(i) ==> !Passed(s.senders[t], i)
  {
  }

  /** Only the target that is handed the line gets it. */
  lemma QueuedAfterSend(s: State, t: Thread, i: nat)
    requires SendEnabled(s, t) && i < |s.targets|
    ensures |AfterSend(s, t).targets| == |s.targets|
    ensures AfterSend(s, t).targets[i].queued ==
            if t in s.senders && s.senders[t] == Receives(i) then s.targets[i].queued + [t] else s.targets[i].queued
  {
  }

  lemma FinKeepsDelivery(s: State, f: Thread, i: nat)
    requires FinEnabled(s, f) && i < |s.targets| && Delivers(s, i)
    ensures Delivers(AfterFin(s, f), i)
  {
  }

  /** Nothing that has happened to the targets is undone. */
  ghost predicate GoesOn(a: seq<Target>, b: seq<Target>) {
    |a| == |b| && forall i :: 0 <= i < |a| ==>
      (a[i].fin ==> b[i].fin) && (a[i].deleted ==> b[i].deleted) && (a[i].logger.Done? ==> b[i].logger.Done?)
  }

  lemma OrderGoesOn(a: seq<Target>, b: seq<Target>, at: FinAt)
    requires DeletesInOrder(a, at) && GoesOn(a, b)
    ensures DeletesInOrder(b, at)
  {
  }

  lemma SendGoesOn(s: State, t: Thread)
    requires SendEnabled(s, t)
    ensures GoesOn(s.targets, AfterSend(s, t).targets)
    ensures AfterSend(s, t).finishers == s.finishers || AfterSend(s, t) == NotifyOne(Sending(s, t, SendAt.Leaves))
  {
  }

  lemma FinGoesOn(s: State, f: Thread)
    requires FinEnabled(s, f)
    ensures GoesOn(s.targets, AfterFin(s, f).targets)
  {
  }

  lemma LogGoesOn(s: State, i: nat)
    requires i < |s.targets|
    ensures GoesOn(s.targets, s.targets[i := AfterLog(s.targets[i])])
  {
  }

  lemma FinInOrder(s: State, f: Thread)
    requires FinEnabled(s, f) && (f in s.finishers ==> DeletesInOrder(s.targets, s.finishers[f]))
    ensures DeletesInOrder(AfterFin(s, f).targets, AfterFin(s, f).finishers[f])
  {
  }

  ghost predicate AllInOrder(s: State) {
    forall f :: f in s.finishers ==> DeletesInOrder(s.targets, s.finishers[f])
  }

  lemma SendKeepsOrder(s: State, t: Thread)
    requires SendEnabled(s, t) && AllInOrder(s)
    ensures AllInOrder(AfterSend(s, t))
  {
    hide GoesOn, AfterSend, SendEnabled;
    var s' := AfterSend(s, t);
    SendGoesOn(s, t);
    forall f | f in s'.finishers
      ensures DeletesInOrder(s'.targets, s'.finishers[f])
    {
      OrderGoesOn(s.targets, s'.targets, s.finishers[f]);
    }
  }

  lemma FinKeepsOrder(s: State, f: Thread)
    requires FinEnabled(s, f) && AllInOrder(s)
    ensures AllInOrder(AfterFin(s, f))
  {
    hide GoesOn, DeletesInOrder;
    var s' := AfterFin(s, f);
    FinGoesOn(s, f);
    FinInOrder(s, f);
    forall g | g in s'.finishers && g != f
      ensures DeletesInOrder(s'.targets, s'.finishers[g])
    {
      OrderGoesOn(s.targets, s'.targets, s.finishers[g]);
    }
  }

  lemma LogKeepsOrder(s: State, i: nat)
    requires i < |s.targets| && AllInOrder(s)
    ensures AllInOrder(s.(targets := s.targets[i := AfterLog(s.targets[i])]))
  {
    hide GoesOn, DeletesInOrder, AfterLog;
    LogGoesOn(s, i);
    forall f | f in s.finishers
      ensures DeletesInOrder(s.targets[i := AfterLog(s.targets[i])], s.finishers[f])
    {
      OrderGoesOn(s.targets, s.targets[i := AfterLog(s.targets[i])], s.finishers[f]);
    }
  }

  lemma LogKeepsInv(s: State, i: nat)
    requires Inv(s) && i < |s.targets| && !s.targets[i].logger.Done?
    ensures Inv(After(s, LogStep(i)))
  {
    hide AfterLog, KeepsLines, GoesOn, DeletesInOrder;
    LogKeepsLines(s.targets[i]);
    LogKeepsOrder(s, i);
    LogKeepsHistory(s.targets[i]);
    forall k: nat | k < |s.targets|
      ensures Delivers(After(s, LogStep(i)), k)
    {
      assert Delivers(s, k);
    }
  }

  lemma LogKeepsHistory(x: Target)
    ensures AfterLog(x).queued == x.queued && AfterLog(x).fin == x.fin && AfterLog(x).deleted == x.deleted
  {
  }

  lemma SendKeepsInv(s: State, t: Thread)
    requires Inv(s) && SendEnabled(s, t)
    ensures Inv(AfterSend(s, t))
  {
    CountIsNatural(s);
    hide AfterSend, SendEnabled, ExcludesInit, ExcludesCount, CountsSenders, ShutsDown, AllInOrder, DeletesInOrder;
    hide GoesOn, KeepsLines, Delivers, KeepsAwake, IsClosed;
    SendGoesOn(s, t);
    SendKeepsInit(s, t);
    SendKeepsCountMutex(s, t);
    SendKeepsCount(s, t);
    SendKeepsShutdown(s, t);
    SendKeepsOrder(s, t);
    SendKeepsAwake(s, t);
    SendKeepsClosed(s, t);
    forall i: nat | i < |s.targets|
      ensures KeepsLines(AfterSend(s, t).targets[i]) && Delivers(AfterSend(s, t), i)
    {
      SendKeepsLines(s, t, i);
      SendKeepsDelivery(s, t, i);
    }
  }

  lemma FinKeepsInv(s: State, f: Thread)
    requires Inv(s) && FinEnabled(s, f)
    ensures Inv(AfterFin(s, f))
  {
    hide AfterFin, FinEnabled, ExcludesInit, ExcludesCount, CountsSenders, ShutsDown, AllInOrder, DeletesInOrder;
    hide GoesOn, KeepsLines, Delivers, KeepsAwake, IsClosed;
    FinGoesOn(s, f);
    FinKeepsInit(s, f);
    FinKeepsCountMutex(s, f);
    FinKeepsCount(s, f);
    FinKeepsShutdown(s, f);
    FinKeepsOrder(s, f);
    FinKeepsAwake(s, f);
    FinKeepsClosed(s, f);
    forall i: nat | i < |s.targets|
      ensures KeepsLines(AfterFin(s, f).targets[i]) && Delivers(AfterFin(s, f), i)
    {
      FinKeepsLines(s, f, i);
      FinKeepsDelivery(s, f, i);
    }
  }

  lemma WakeKeepsInv(s: State, f: Thread)
    requires Inv(s) && f in s.finishers && s.finishers[f].Waits?
    ensures Inv(After(s, FinWakesUnasked(f)))
  {
    hide KeepsLines;
    var s' := Finishing(s, f, Wakes);
    forall i: nat | i < |s.targets|
      ensures Delivers(s', i)
    {
      assert Delivers(s, i);
    }
    assert IsClosed(s') by {
      if g :| g in s.finishers && (Closing(s.finishers[g]) || s.finishers[g].Finished?) {
        assert g in s'.finishers && s'.finishers[g] == s.finishers[g];
      }
    }
    assert KeepsAwake(s') by {
      assert s.finishers[f].Waits?;
    }
  }

  lemma SendKeepsAwake(s: State, t: Thread)
    requires SendEnabled(s, t) && KeepsAwake(s) && s.transmitting >= 0
    ensures KeepsAwake(AfterSend(s, t))
  {
    var s' := AfterSend(s, t);
    if s'.transmitting == 0 {
      if s.transmitting == 0 {
        if u :| u in s.senders && s.senders[u].Notifies? {
          assert u in s'.senders && (u == t || s'.senders[u].Notifies?);
        }
      } else {
        assert t in s'.senders && s'.senders[t].Notifies?;
      }
    }
  }

  lemma FinKeepsAwake(s: State, f: Thread)
    requires FinEnabled(s, f) && KeepsAwake(s)
    ensures KeepsAwake(AfterFin(s, f))
  {
    var s' := AfterFin(s, f);
    if g :| g in s'.finishers && s'.finishers[g].Waits? {
      assert g == f || g in s.finishers;
    }
  }

  /** The log is closed by a thread that is deleting the targets or has done so. */
  ghost predicate IsClosed(s: State) {
    !s.initialized ==> exists f :: f in s.finishers && (Closing(s.finishers[f]) || s.finishers[f].Finished?)
  }

  lemma SendKeepsClosed(s: State, t: Thread)
    requires SendEnabled(s, t) && IsClosed(s)
    ensures IsClosed(AfterSend(s, t))
  {
    var s' := AfterSend(s, t);
    if f :| f in s.finishers && (Closing(s.finishers[f]) || s.finishers[f].Finished?) {
      assert f in s'.finishers && s'.finishers[f] == s.finishers[f];
    }
  }

  lemma FinKeepsClosed(s: State, f: Thread)
    requires FinEnabled(s, f) && IsClosed(s)
    ensures IsClosed(AfterFin(s, f))
  {
    var s' := AfterFin(s, f);
    if s.initialized {
      assert f in s'.finishers;
    } else {
      var g :| g in s.finishers && (Closing(s.finishers[g]) || s.finishers[g].Finished?);
      assert g in s'.finishers && (g == f || s'.finishers[g] == s.finishers[g]);
    }
  }

  // ----- Runs

  /** Some interleaving leads from one state to another. */
  ghost predicate Leads(s: State, steps: seq<Step>, s': State)
    decreases |steps|
  {
    if steps == [] then s == s'
    else Enabled(s, steps[0]) && Leads(After(s, steps[0]), steps[1..], s')
  }

  ghost predicate Reached(n: nat, s: State) {
    exists steps :: Leads(Init(n), steps, s)
  }

  lemma StepKeepsInv(s: State, step: Step)
    requires Inv(s) && Enabled(s, step)
    ensures Inv(After(s, step))
  {
    hide Inv, AfterSend, AfterFin, SendEnabled, FinEnabled;
    match step
    case SendStep(t) => SendKeepsInv(s, t);
    case FinStep(f) => FinKeepsInv(s, f);
    case FinWakesUnasked(f) => WakeKeepsInv(s, f);
    case LogStep(i) => LogKeepsInv(s, i);
  }

  lemma {:induction false} RunKeepsInv(s: State, steps: seq<Step>, s': State)
    requires Inv(s) && Leads(s, steps, s')
    ensures Inv(s')
    decreases |steps|
  {
    hide Inv, Enabled, After;
    if steps != [] {
      StepKeepsInv(s, steps[0]);
      RunKeepsInv(After(s, steps[0]), steps[1..], s');
    }
  }

  lemma ReachedInv(n: nat, s: State)
    requires Reached(n, s)
    ensures Inv(s)
  {
    var steps :| Leads(Init(n), steps, s);
    assert InProgress(Init(n).senders) == {};
    RunKeepsInv(Init(n), steps, s);
  }

  // ----- What every run satisfies

  /** A target that is handed a line has not been ended, let alone deleted. */
  lemma NoUseAfterDelete(n: nat, s: State, t: Thread, i: nat)
    requires Reached(n, s) && t in s.senders && s.senders[t].Receives? && i < |s.targets|
    ensures !s.targets[i].fin && !s.targets[i].deleted
    ensures !s.targets[i].logger.LastLines? && !s.targets[i].logger.Done?
  {
    ReachedInv(n, s);
    if s.transmitting == 0 {
      NobodyInProgress(s, t);
    }
  }

  /** Targets are deleted while no message is being transmitted and none can be admitted. */
  lemma DeletesAlone(n: nat, s: State, f: Thread)
    requires Reached(n, s) && f in s.finishers && Closing(s.finishers[f])
    ensures forall t :: t in s.senders ==> !IsCounted(s.senders[t]) && !SendHoldsInit(s.senders[t])
    ensures forall t :: t in s.senders && s.senders[t].Begins? ==> !SendEnabled(s, t)
    ensures forall g :: g in s.finishers && g != f ==> s.finishers[g].Starts? || s.finishers[g].Finished?
  {
    ReachedInv(n, s);
    forall t | t in s.senders
      ensures !IsCounted(s.senders[t])
    {
      NobodyInProgress(s, t);
    }
  }

  /** The message has been admitted, and transmitted. */
  predicate Transmitted(at: SendAt) {
    at.Notifies? || at.Leaves? || at.Sent?
  }

  /**
   When `finStatics` has returned, every target has written every line that was transmitted, once
   and in the order of its queue, and no other line; and no message is half transmitted.
   */
  lemma ShutdownWritesEverything(n: nat, s: State, f: Thread)
    requires Reached(n, s) && f in s.finishers && s.finishers[f].Finished?
    ensures forall t :: t in s.senders ==>
              Transmitted(s.senders[t]) || s.senders[t].Begins? || s.senders[t].Looks? || s.senders[t].Rejected?
    ensures forall x :: x in s.targets ==>
              && x.deleted && x.written == x.queued && Once(x.written)
              && forall t :: t in x.written <==> t in s.senders && Transmitted(s.senders[t])
  {
    ReachedInv(n, s);
    forall t | t in s.senders
      ensures !IsCounted(s.senders[t])
    {
      NobodyInProgress(s, t);
    }
    forall x | x in s.targets
      ensures x.deleted && x.written == x.queued && Once(x.written)
      ensures forall t :: t in x.written <==> t in s.senders && Transmitted(s.senders[t])
    {
      var i :| 0 <= i < |s.targets| && s.targets[i] == x;
      assert DeletedUpTo(s.targets, |s.targets|);
      assert KeepsLines(x) && Delivers(s, i);
      assert x.queued == x.written;
    }
  }

  /** The target after its logger has taken `k` steps. */
  function Logged(x: Target, k: nat): Target
    decreases k
  {
    if k == 0 then x else Logged(AfterLog(x), k - 1)
  }

  /** A logger that is left alone writes all lines that are queued, in their order, and looks at the flag again. */
  lemma LoggerWritesAll(x: Target)
    requires x.logger.ReadsFin? && !x.fin && x.local == []
    ensures Logged(x, |x.lines| + 3) == x.(written := x.written + x.lines, lines := [])
  {
    var y := x.(logger := Outputs, local := x.lines, lines := []);
    assert Logged(x, |x.lines| + 3) == Logged(x.(logger := Collects), |x.lines| + 2) == Logged(y, |x.lines| + 1);
    OutputsAll(y);
  }

  lemma {:induction false} OutputsAll(x: Target)
    requires x.logger.Outputs?
    ensures Logged(x, |x.local| + 1) == x.(written := x.written + x.local, local := [], logger := ReadsFin)
    decreases |x.local|
  {
    if x.local == [] {
      assert x.written + [] == x.written && Logged(x, 1) == Logged(AfterLog(x), 0);
    } else {
      OutputsAll(AfterLog(x));
      assert x.written + [x.local[0]] + x.local[1..] == x.written + x.local;
    }
  }

  /** And once the target has been ended it writes them and is done. */
  lemma EndedLoggerWritesAll(x: Target)
    requires x.logger.ReadsFin? && x.fin
    ensures Logged(x, |x.lines| + 2) == x.(written := x.written + x.lines, lines := [], logger := LoggerAt.Done)
  {
    LastLinesAll(x.(logger := LastLines));
  }

  lemma {:induction false} LastLinesAll(x: Target)
    requires x.logger.LastLines?
    ensures Logged(x, |x.lines| + 1) == x.(written := x.written + x.lines, lines := [], logger := LoggerAt.Done)
    decreases |x.lines|
  {
    if x.lines == [] {
      assert x.written + [] == x.written && Logged(x, 1) == Logged(AfterLog(x), 0);
    } else {
      LastLinesAll(AfterLog(x));
      assert x.written + [x.lines[0]] + x.lines[1..] == x.written + x.lines;
    }
  }

  /** The sender is at `at`. */
  function SenderAt(s: State, t: Thread, at: SendAt): State {
    s.(senders := s.senders[t := at])
  }

  lemma SendsTo(n: nat, s: State, s': State, t: Thread)
    requires Reached(n, s) && SendEnabled(s, t) && AfterSend(s, t) == s'
    ensures Reached(n, s')
  {
    var steps :| Leads(Init(n), steps, s);
    OneMore(Init(n), steps, s, SendStep(t));
  }

  lemma Moved(senders: map<Thread, SendAt>, t: Thread, a: SendAt, b: SendAt)
    ensures senders[t := a][t := b] == senders[t := b]
  {
  }

  /** A thread that transmits while nobody else does anything is admitted. */
  lemma GetsAdmitted(n: nat, s: State, t: Thread)
    requires Reached(n, s) && t !in s.senders && s.initialized && s.initMutex.Free? && s.countMutex.Free?
    ensures Reached(n, SenderAt(s, t, Receives(0)).(transmitting := s.transmitting + 1))
  {
    hide Reached;
    var s1, s2 := SenderAt(s, t, Begins), SenderAt(s, t, Looks).(initMutex := Sender(t));
    var s3 := SenderAt(s, t, ToCount).(initMutex := Sender(t));
    var s4 := SenderAt(s, t, Counts).(initMutex := Sender(t), countMutex := Sender(t));
    var s5 := SenderAt(s, t, Counted).(initMutex := Sender(t), countMutex := Sender(t),
                                       transmitting := s.transmitting + 1);
    var s6 := SenderAt(s, t, Admitted).(initMutex := Sender(t), transmitting := s.transmitting + 1);
    var s7 := SenderAt(s, t, Receives(0)).(transmitting := s.transmitting + 1);
    Moved(s.senders, t, Begins, Looks);
    Moved(s.senders, t, Looks, ToCount);
    Moved(s.senders, t, ToCount, Counts);
    Moved(s.senders, t, Counts, Counted);
    Moved(s.senders, t, Counted, Admitted);
    Moved(s.senders, t, Admitted, Receives(0));
    SendsTo(n, s, s1, t);
    SendsTo(n, s1, s2, t);
    SendsTo(n, s2, s3, t);
    SendsTo(n, s3, s4, t);
    SendsTo(n, s4, s5, t);
    SendsTo(n, s5, s6, t);
    SendsTo(n, s6, s7, t);
  }

  /** The first `i` targets have received the line. */
  function Receiving(targets: seq<Target>, i: nat, t: Thread): (r: seq<Target>)
    ensures |r| == |targets|
  {
    seq(|targets|, j requires 0 <= j < |targets| => if j < i then Received(targets[j], t) else targets[j])
  }

  lemma {:induction false} ReachesTargets(n: nat, s: State, t: Thread, i: nat)
    requires t in s.senders && s.senders[t] == Receives(0) && Reached(n, s) && i <= |s.targets|
    ensures Reached(n, SenderAt(s, t, Receives(i)).(targets := Receiving(s.targets, i, t)))
  {
    hide Reached;
    if i == 0 {
      assert Receiving(s.targets, 0, t) == s.targets && s.senders[t := Receives(0)] == s.senders;
    } else {
      ReachesTargets(n, s, t, i - 1);
      var before := SenderAt(s, t, Receives(i - 1)).(targets := Receiving(s.targets, i - 1, t));
      Moved(s.senders, t, Receives(i - 1), Receives(i));
      assert Receiving(s.targets, i - 1, t)[i - 1 := Received(s.targets[i - 1], t)] == Receiving(s.targets, i, t);
      SendsTo(n, before, SenderAt(s, t, Receives(i)).(targets := Receiving(s.targets, i, t)), t);
    }
  }

  lemma GetsSent(n: nat, s: State, t: Thread)
    requires t in s.senders && s.senders[t] == Receives(|s.targets|) && Reached(n, s) && s.countMutex.Free?
    requires forall f :: f in s.finishers ==> !s.finishers[f].Waits?
    ensures Reached(n, SenderAt(s, t, Sent).(transmitting := s.transmitting - 1))
  {
    hide Reached;
    var s1 := SenderAt(s, t, ToUncount);
    var s2 := SenderAt(s, t, Uncounts).(countMutex := Sender(t));
    var s3 := SenderAt(s, t, Notifies).(countMutex := Sender(t), transmitting := s.transmitting - 1);
    var s4 := SenderAt(s, t, SendAt.Leaves).(countMutex := Sender(t), transmitting := s.transmitting - 1);
    Moved(s.senders, t, ToUncount, Uncounts);
    Moved(s.senders, t, Uncounts, Notifies);
    Moved(s.senders, t, Notifies, SendAt.Leaves);
    Moved(s.senders, t, SendAt.Leaves, Sent);
    assert NotifyOne(s4).finishers == s.finishers;
    SendsTo(n, s, s1, t);
    SendsTo(n, s1, s2, t);
    SendsTo(n, s2, s3, t);
    SendsTo(n, s3, s4, t);
    SendsTo(n, s4, SenderAt(s, t, Sent).(transmitting := s.transmitting - 1), t);
  }

  /** A message that nobody disturbs is handed to every target of a log that is open, and the call returns. */
  lemma MessageReachesTargets(n: nat, s: State, t: Thread)
    requires Reached(n, s) && t !in s.senders && s.initialized && s.initMutex.Free? && s.countMutex.Free?
    ensures exists s' :: Reached(n, s') && s'.senders == s.senders[t := Sent] && |s'.targets| == |s.targets|
                         && (forall i :: 0 <= i < |s.targets| ==>
                               s'.targets[i] == s.targets[i].(lines := s.targets[i].lines + [t],
                                                              queued := s.targets[i].queued + [t]))
  {
    hide Reached;
    ReachedInv(n, s);
    assert forall f :: f in s.finishers ==> !s.finishers[f].Waits?;
    GetsAdmitted(n, s, t);
    var s1 := SenderAt(s, t, Receives(0)).(transmitting := s.transmitting + 1);
    ReachesTargets(n, s1, t, |s.targets|);
    Moved(s.senders, t, Receives(0), Receives(|s.targets|));
    var s2 := SenderAt(s1, t, Receives(|s.targets|)).(targets := Receiving(s.targets, |s.targets|, t));
    GetsSent(n, s2, t);
    Moved(s.senders, t, Receives(|s.targets|), Sent);
    var s3 := SenderAt(s2, t, Sent).(transmitting := s2.transmitting - 1);
    assert s3.senders == s.senders[t := Sent];
  }

  /** One to a log that has been closed is dropped. */
  lemma MessageIsDropped(n: nat, s: State, t: Thread)
    requires Reached(n, s) && t !in s.senders && !s.initialized && s.initMutex.Free?
    ensures exists s' :: Reached(n, s') && s'.senders == s.senders[t := Rejected] && s'.targets == s.targets
  {
    hide Reached;
    var s1, s2 := SenderAt(s, t, Begins), SenderAt(s, t, Looks).(initMutex := Sender(t));
    Moved(s.senders, t, Begins, Looks);
    Moved(s.senders, t, Looks, Rejected);
    SendsTo(n, s, s1, t);
    SendsTo(n, s1, s2, t);
    SendsTo(n, s2, SenderAt(s, t, Rejected), t);
  }

  /** A finisher that waits is not forgotten: somebody transmits, or is about to notify it. */
  lemma WaitingIsNoticed(n: nat, s: State, f: Thread)
    requires Reached(n, s) && f in s.finishers && s.finishers[f].Waits?
    ensures exists t :: t in s.senders && (IsCounted(s.senders[t]) || s.senders[t].Notifies?)
  {
    ReachedInv(n, s);
    if s.transmitting != 0 {
      assert InProgress(s.senders) != {};
      var t :| t in InProgress(s.senders);
    }
  }

  // ----- A finisher gets on

  /**
   The step brings a message or a finisher further: it is not one of a thread that comes new, nor of one
   that only begins to transmit, nor of the logger of a target that has not been ended, nor an unasked
   wake-up.
   */
  predicate GetsOn(s: State, step: Step) {
    match step
    case SendStep(t) => t in s.senders && !s.senders[t].Begins?
    case FinStep(f) => f in s.finishers
    case FinWakesUnasked(_) => false
    case LogStep(i) => i < |s.targets| && s.targets[i].fin
  }

  ghost predicate SomebodyGetsOn(s: State) {
    exists step :: Enabled(s, step) && GetsOn(s, step)
  }

  /** The thread that holds the count mutex can step. */
  lemma CountHolderGetsOn(s: State)
    requires ExcludesCount(s) && !s.countMutex.Free?
    ensures SomebodyGetsOn(s)
  {
    var step := if s.countMutex.Sender? then SendStep(s.countMutex.t) else FinStep(s.countMutex.f);
    assert Enabled(s, step) && GetsOn(s, step);
  }

  lemma SenderGetsOn(s: State, t: Thread)
    requires ExcludesCount(s) && t in s.senders
    requires !s.senders[t].Begins? && !s.senders[t].Sent? && !s.senders[t].Rejected?
    ensures SomebodyGetsOn(s)
  {
    if SendEnabled(s, t) {
      assert Enabled(s, SendStep(t)) && GetsOn(s, SendStep(t));
    } else {
      CountHolderGetsOn(s);
    }
  }

  /** The finisher that holds the init mutex can step, or one that it waits for can. */
  lemma InitHolderGetsOn(s: State, f: Thread)
    requires Inv(s) && f in s.finishers && FinHoldsInit(s.finishers[f]) && !s.finishers[f].Thrown?
    ensures SomebodyGetsOn(s)
  {
    var at := s.finishers[f];
    if FinEnabled(s, f) {
      assert Enabled(s, FinStep(f)) && GetsOn(s, FinStep(f));
    } else if at.Joins? {
      assert DeletesInOrder(s.targets, at);
      assert Enabled(s, LogStep(at.i)) && GetsOn(s, LogStep(at.i));
    } else if at.Waits? {
      if s.transmitting != 0 {
        assert InProgress(s.senders) != {};
        var t :| t in InProgress(s.senders);
        SenderGetsOn(s, t);
      } else {
        var t :| t in s.senders && s.senders[t].Notifies?;
        SenderGetsOn(s, t);
      }
    } else {
      CountHolderGetsOn(s);
    }
  }

  /** There is no deadlock: while a finisher has not returned, and none has thrown, some thread can get on. */
  lemma NoDeadlock(n: nat, s: State, f: Thread)
    requires Reached(n, s) && f in s.finishers && !s.finishers[f].Finished?
    requires forall g :: g in s.finishers ==> !s.finishers[g].Thrown?
    ensures exists step :: Enabled(s, step) && GetsOn(s, step)
  {
    ReachedInv(n, s);
    match s.initMutex
    case Free =>
      assert Enabled(s, FinStep(f)) && GetsOn(s, FinStep(f));
    case Sender(t) =>
      SenderGetsOn(s, t);
    case Finisher(g) =>
      InitHolderGetsOn(s, g);
  }

  /** How many steps the thread has left, unless it waits for the init mutex or holds it. */
  function SendLeft(at: SendAt, n: nat): nat {
    match at
    case Receives(i) => 5 + if i < n then n - i else 0
    case ToUncount => 4
    case Uncounts => 3
    case Notifies => 2
    case Leaves => 1
    case _ => 0
  }

  /** One pair for every step that a thread has left. */
  ghost function SendsLeft(senders: map<Thread, SendAt>, n: nat): set<(Thread, nat)> {
    set t, k: nat | t in senders && k < SendLeft(senders[t], n) :: (t, k)
  }

  /** How many steps the logger of a target takes once that is ended. */
  function LogLeft(x: Target): nat {
    if !x.fin then |x.lines| + |x.local| + 4
    else
      match x.logger
      case ReadsFin => |x.lines| + 2
      case Collects => |x.lines| + 4
      case Outputs => |x.local| + |x.lines| + 3
      case LastLines => |x.lines| + 1
      case Done => 0
  }

  function LogsLeft(targets: seq<Target>): nat {
    if targets == [] then 0 else LogLeft(targets[0]) + LogsLeft(targets[1..])
  }

  /** How many steps the finisher has left, if it need not wait. */
  function FinLeft(at: FinAt, n: nat): nat {
    match at
    case Starts => 0
    case ToCheck | Wakes => 3 * n + 6
    case Checks => 3 * n + 5
    case Waits | Leaves => 3 * n + 4
    case Verifies => 3 * n + 3
    case Ends(i) => 2 + if i < n then 3 * (n - i) else 0
    case Joins(i) => 1 + if i < n then 3 * (n - i) else 0
    case Deletes(i) => if i < n then 3 * (n - i) else 0
    case Clears => 1
    case Finished | Thrown => 0
  }

  /** A bound for what there is to do until the finisher returns: a sender's step may add a line or wake it. */
  ghost function Work(s: State, f: Thread): nat
    requires f in s.finishers
  {
    3 * |SendsLeft(s.senders, |s.targets|)| + LogsLeft(s.targets) + FinLeft(s.finishers[f], |s.targets|)
  }

  ghost function Column(t: Thread, r: nat): set<(Thread, nat)> {
    set k: nat | k < r :: (t, k)
  }

  lemma {:induction false} ColumnSize(t: Thread, r: nat)
    ensures |Column(t, r)| == r
  {
    if r == 0 {
      assert Column(t, 0) == {};
    } else {
      ColumnSize(t, r - 1);
      assert Column(t, r) == Column(t, r - 1) + {(t, r - 1)};
    }
  }

  ghost function OthersLeft(senders: map<Thread, SendAt>, t: Thread, n: nat): set<(Thread, nat)> {
    set u, k: nat | u in senders && u != t && k < SendLeft(senders[u], n) :: (u, k)
  }

  lemma SendsLeftSplit(senders: map<Thread, SendAt>, t: Thread, n: nat)
    ensures |SendsLeft(senders, n)| ==
            |OthersLeft(senders, t, n)| + if t in senders then SendLeft(senders[t], n) else 0
  {
    hide SendLeft;
    var mine := if t in senders then SendLeft(senders[t], n) else 0;
    assert SendsLeft(senders, n) == OthersLeft(senders, t, n) + Column(t, mine);
    assert OthersLeft(senders, t, n) !! Column(t, mine);
    ColumnSize(t, mine);
  }

  lemma SendsLeftAfter(senders: map<Thread, SendAt>, t: Thread, at: SendAt, n: nat)
    ensures |SendsLeft(senders[t := at], n)| + (if t in senders then SendLeft(senders[t], n) else 0) ==
            |SendsLeft(senders, n)| + SendLeft(at, n)
  {
    hide SendLeft, SendsLeft;
    SendsLeftSplit(senders, t, n);
    SendsLeftSplit(senders[t := at], t, n);
    assert OthersLeft(senders[t := at], t, n) == OthersLeft(senders, t, n);
  }

  lemma {:induction false} LogsLeftAfter(targets: seq<Target>, i: nat, x: Target)
    requires i < |targets|
    ensures LogsLeft(targets[i := x]) + LogLeft(targets[i]) == LogsLeft(targets) + LogLeft(x)
  {
    hide LogLeft;
    if i > 0 {
      LogsLeftAfter(targets[1..], i - 1, x);
      assert targets[i := x][1..] == targets[1..][i - 1 := x];
    }
  }

  lemma SendIsWork(s: State, t: Thread, f: Thread)
    requires Inv(s) && SendEnabled(s, t) && f in s.finishers && s.initMutex == Finisher(f)
    ensures f in AfterSend(s, t).finishers
    ensures Work(AfterSend(s, t), f) + (if GetsOn(s, SendStep(t)) then 1 else 0) <= Work(s, f)
  {
    hide SendsLeft, LogsLeft;
    var s' := AfterSend(s, t);
    CountFollows(s, t);
    SendsLeftAfter(s.senders, t, s'.senders[t], |s.targets|);
    if t in s.senders && s.senders[t].Receives? && s.senders[t].i < |s.targets| {
      LogsLeftAfter(s.targets, s.senders[t].i, Received(s.targets[s.senders[t].i], t));
    }
  }

  /** Only the finisher that holds the init mutex can step. */
  lemma OnlyHolderSteps(s: State, g: Thread, f: Thread)
    requires ExcludesInit(s) && FinEnabled(s, g) && s.initMutex == Finisher(f)
    ensures g in s.finishers ==> g == f
  {
  }

  lemma FinLeavesLogs(s: State, f: Thread)
    requires FinEnabled(s, f)
    ensures AfterFin(s, f).senders == s.senders && |AfterFin(s, f).targets| == |s.targets|
    ensures LogsLeft(AfterFin(s, f).targets) <= LogsLeft(s.targets)
  {
    hide LogsLeft;
    if f in s.finishers {
      var at := s.finishers[f];
      if at.Ends? && at.i < |s.targets| {
        LogsLeftAfter(s.targets, at.i, s.targets[at.i].(fin := true));
      } else if at.Deletes? && at.i < |s.targets| {
        LogsLeftAfter(s.targets, at.i, s.targets[at.i].(deleted := true));
      }
    }
  }

  lemma FinLeavesLess(s: State, f: Thread)
    requires FinEnabled(s, f) && f in s.finishers && !s.finishers[f].Starts?
    requires DeletesInOrder(s.targets, s.finishers[f])
    ensures f in AfterFin(s, f).finishers
    ensures FinLeft(AfterFin(s, f).finishers[f], |s.targets|) < FinLeft(s.finishers[f], |s.targets|)
  {
  }

  lemma FinIsWork(s: State, g: Thread, f: Thread)
    requires Inv(s) && FinEnabled(s, g) && f in s.finishers && s.initMutex == Finisher(f)
    ensures f in AfterFin(s, g).finishers
    ensures Work(AfterFin(s, g), f) + (if GetsOn(s, FinStep(g)) then 1 else 0) <= Work(s, f)
  {
    hide SendsLeft, LogsLeft, FinLeft, DeletesInOrder, ExcludesCount, CountsSenders, ShutsDown, KeepsAwake, IsClosed;
    hide KeepsLines, Delivers;
    FinLeavesLogs(s, g);
    OnlyHolderSteps(s, g, f);
    if g in s.finishers {
      hide AfterFin, FinEnabled;
      assert !s.finishers[f].Starts?;
      FinLeavesLess(s, f);
    }
  }

  lemma LogIsWork(s: State, i: nat, f: Thread)
    requires i < |s.targets| && !s.targets[i].logger.Done? && f in s.finishers
    ensures Work(After(s, LogStep(i)), f) + (if GetsOn(s, LogStep(i)) then 1 else 0) <= Work(s, f)
  {
    hide SendsLeft, LogsLeft;
    LogsLeftAfter(s.targets, i, AfterLog(s.targets[i]));
  }

  /** The interleaving leads there while the finisher holds the init mutex. */
  ghost predicate LeadsHolding(s: State, steps: seq<Step>, s': State, f: Thread)
    decreases |steps|
  {
    if steps == [] then s == s'
    else s.initMutex == Finisher(f) && Enabled(s, steps[0]) && LeadsHolding(After(s, steps[0]), steps[1..], s', f)
  }

  /** How many of the steps get on. */
  ghost function StepsOn(s: State, steps: seq<Step>, s': State, f: Thread): nat
    requires LeadsHolding(s, steps, s', f)
    decreases |steps|
  {
    if steps == [] then 0
    else (if GetsOn(s, steps[0]) then 1 else 0) + StepsOn(After(s, steps[0]), steps[1..], s', f)
  }

  /** How many are wake-ups that nobody has asked for. */
  function WakesUnasked(steps: seq<Step>): nat {
    if steps == [] then 0 else (if steps[0].FinWakesUnasked? then 1 else 0) + WakesUnasked(steps[1..])
  }

  lemma StepIsWork(s: State, step: Step, f: Thread)
    requires Inv(s) && Enabled(s, step) && f in s.finishers && s.initMutex == Finisher(f)
    ensures f in After(s, step).finishers
    ensures Work(After(s, step), f) + (if GetsOn(s, step) then 1 else 0) <=
            Work(s, f) + if step.FinWakesUnasked? then 2 else 0
  {
    hide Inv, AfterSend, AfterFin, SendEnabled, FinEnabled, GetsOn, SendsLeft, LogsLeft;
    match step
    case SendStep(t) => SendIsWork(s, t, f);
    case FinStep(g) => FinIsWork(s, g, f);
    case LogStep(i) => LogIsWork(s, i, f);
    case FinWakesUnasked(g) => assert !GetsOn(s, step) by { GetsOnAsked(s, g); }
  }

  lemma GetsOnAsked(s: State, g: Thread)
    ensures !GetsOn(s, FinWakesUnasked(g))
  {
  }

  /**
   While a finisher holds the init mutex, in any interleaving, no more steps get on than there is work,
   but for two after every unasked wake-up; and as long as it has not thrown or returned one can.
   */
  lemma {:induction false} FinisherIsNotDelayed(s: State, steps: seq<Step>, s': State, f: Thread)
    requires Inv(s) && f in s.finishers && LeadsHolding(s, steps, s', f)
    ensures f in s'.finishers && Inv(s')
    ensures StepsOn(s, steps, s', f) + Work(s', f) <= Work(s, f) + 2 * WakesUnasked(steps)
    ensures s'.initMutex == Finisher(f) && !s'.finishers[f].Thrown? ==>
              exists step :: Enabled(s', step) && GetsOn(s', step)
    decreases |steps|
  {
    hide Inv, Work, GetsOn, Enabled, After;
    if steps != [] {
      StepKeepsInv(s, steps[0]);
      StepIsWork(s, steps[0], f);
      FinisherIsNotDelayed(After(s, steps[0]), steps[1..], s', f);
    } else if s'.initMutex == Finisher(f) && !s'.finishers[f].Thrown? {
      HolderHolds(s', f);
      InitHolderGetsOn(s', f);
    }
  }

  lemma HolderHolds(s: State, f: Thread)
    requires Inv(s) && f in s.finishers
    ensures s.initMutex == Finisher(f) <==> FinHoldsInit(s.finishers[f])
  {
  }

  // ----- Finishing twice

  /** `finStatics` throws exactly when the log has been finished before. */
  lemma ThrowsWhenFinished(n: nat, s: State, f: Thread)
    requires Reached(n, s) && f in s.finishers && s.finishers[f].Verifies?
    ensures AfterFin(s, f).finishers[f].Thrown? <==> exists g :: g in s.finishers && s.finishers[g].Finished?
  {
    ReachedInv(n, s);
  }

  /** `finStatics` that has thrown still holds the mutex: no message that was not admitted yet ever gets further. */
  lemma {:induction false} ThrownLocksOut(s: State, steps: seq<Step>, s': State, f: Thread, t: Thread)
    requires Inv(s) && Leads(s, steps, s') && f in s.finishers && s.finishers[f].Thrown?
    requires t !in s.senders || s.senders[t].Begins?
    ensures f in s'.finishers && s'.finishers[f].Thrown?
    ensures t !in s'.senders || s'.senders[t].Begins?
    decreases |steps|
  {
    hide Inv;
    if steps != [] {
      ThrownStays(s, steps[0], f, t);
      StepKeepsInv(s, steps[0]);
      ThrownLocksOut(After(s, steps[0]), steps[1..], s', f, t);
    }
  }

  lemma ThrownStays(s: State, step: Step, f: Thread, t: Thread)
    requires Inv(s) && Enabled(s, step) && f in s.finishers && s.finishers[f].Thrown?
    requires t !in s.senders || s.senders[t].Begins?
    ensures var s' := After(s, step);
            && f in s'.finishers && s'.finishers[f].Thrown?
            && (t !in s'.senders || s'.senders[t].Begins?)
  {
    assert s.initMutex == Finisher(f);
  }

  lemma {:induction false} OneMore(s: State, steps: seq<Step>, s': State, step: Step)
    requires Leads(s, steps, s') && Enabled(s', step)
    ensures Leads(s, steps + [step], After(s', step))
    decreases |steps|
  {
    hide Enabled, After;
    if steps == [] {
      assert [step][1..] == [];
    } else {
      assert (steps + [step])[1..] == steps[1..] + [step];
      OneMore(After(s, steps[0]), steps[1..], s', step);
    }
  }

  lemma ReachedNext(n: nat, s: State, f: Thread)
    requires Reached(n, s) && FinEnabled(s, f)
    ensures Reached(n, AfterFin(s, f))
  {
    var steps :| Leads(Init(n), steps, s);
    OneMore(Init(n), steps, s, FinStep(f));
  }

  /** The `f`th thread is at `at` and holds the init mutex. */
  function At(s: State, f: Thread, at: FinAt): State {
    Finishing(s, f, at).(initMutex := Finisher(f))
  }

  lemma MovesTo(n: nat, s: State, s': State, f: Thread)
    requires Reached(n, s) && FinEnabled(s, f) && AfterFin(s, f) == s'
    ensures Reached(n, s')
  {
    ReachedNext(n, s, f);
  }

  lemma Logs(n: nat, s: State, s': State, i: nat)
    requires Reached(n, s) && i < |s.targets| && !s.targets[i].logger.Done?
    requires s' == s.(targets := s.targets[i := AfterLog(s.targets[i])])
    ensures Reached(n, s')
  {
    var steps :| Leads(Init(n), steps, s);
    OneMore(Init(n), steps, s, LogStep(i));
  }

  lemma Overwrites(m: map<Thread, FinAt>, f: Thread, a: FinAt, b: FinAt)
    ensures m[f := a][f := b] == m[f := b]
  {
  }

  /** A thread that finishes while nobody else does anything gets to look at the flag. */
  lemma GetsToVerify(n: nat, s: State, f: Thread)
    requires Reached(n, s) && f !in s.finishers && s.initMutex.Free? && s.countMutex.Free? && s.transmitting == 0
    ensures Reached(n, At(s, f, Verifies))
  {
    hide Reached;
    var s1, s2 := Finishing(s, f, Starts), At(s, f, ToCheck);
    var s3, s4 := At(s, f, Checks).(countMutex := Finisher(f)), At(s, f, FinAt.Leaves).(countMutex := Finisher(f));
    Overwrites(s.finishers, f, Starts, ToCheck);
    Overwrites(s.finishers, f, ToCheck, Checks);
    Overwrites(s.finishers, f, Checks, FinAt.Leaves);
    Overwrites(s.finishers, f, FinAt.Leaves, Verifies);
    MovesTo(n, s, s1, f);
    MovesTo(n, s1, s2, f);
    MovesTo(n, s2, s3, f);
    MovesTo(n, s3, s4, f);
    MovesTo(n, s4, At(s, f, Verifies), f);
  }

  const GONE := Target([], true, true, LoggerAt.Done, [], [], [])

  /** The first `i` of `n` targets are ended and deleted, and nothing has been written. */
  function Ended(n: nat, i: nat): (r: seq<Target>)
    ensures |r| == n
  {
    seq(n, j => if j < i then GONE else NEW_TARGET)
  }

  /** The state while the first thread ends its targets. */
  function Ending(n: nat, at: FinAt, targets: seq<Target>): State {
    At(Init(n), 0, at).(initialized := false, targets := targets)
  }

  lemma Replaces(n: nat, a: FinAt, b: FinAt, targets: seq<Target>)
    ensures Finishing(Ending(n, a, targets), 0, b) == Ending(n, b, targets)
  {
    Overwrites(map[], 0, a, b);
  }

  /** One more target is ended, its thread stops, and it is deleted. */
  lemma EndsOneMore(n: nat, i: nat)
    requires i < n && Reached(n, Ending(n, Ends(i), Ended(n, i)))
    ensures Reached(n, Ending(n, Ends(i + 1), Ended(n, i + 1)))
  {
    hide Reached;
    var t0 := Ended(n, i);
    var told, last, done := NEW_TARGET.(fin := true), NEW_TARGET.(fin := true, logger := LastLines),
                            NEW_TARGET.(fin := true, logger := LoggerAt.Done);
    var t1, t2, t3 := t0[i := told], t0[i := last], t0[i := done];
    assert t1[i := last] == t2 && t2[i := done] == t3 && t3[i := GONE] == Ended(n, i + 1);
    Replaces(n, Ends(i), Joins(i), t0);
    MovesTo(n, Ending(n, Ends(i), t0), Ending(n, Joins(i), t1), 0);
    Logs(n, Ending(n, Joins(i), t1), Ending(n, Joins(i), t2), i);
    Logs(n, Ending(n, Joins(i), t2), Ending(n, Joins(i), t3), i);
    Replaces(n, Joins(i), Deletes(i), t3);
    MovesTo(n, Ending(n, Joins(i), t3), Ending(n, Deletes(i), t3), 0);
    Replaces(n, Deletes(i), Ends(i + 1), t3);
    MovesTo(n, Ending(n, Deletes(i), t3), Ending(n, Ends(i + 1), Ended(n, i + 1)), 0);
  }

  lemma {:induction false} EndsAll(n: nat, i: nat)
    requires i <= n && Reached(n, Ending(n, Ends(0), Ended(n, 0)))
    ensures Reached(n, Ending(n, Ends(i), Ended(n, i)))
  {
    hide Reached, Ending, Ended;
    if i > 0 {
      EndsAll(n, i - 1);
      EndsOneMore(n, i - 1);
    }
  }

  /** A call of `finStatics` that nobody disturbs ends and deletes every target, and returns. */
  lemma FinishReturns(n: nat)
    ensures Reached(n, Finishing(Init(n), 0, Finished).(initialized := false, targets := Ended(n, n)))
  {
    hide Reached;
    StartIsReached(n);
    GetsToVerify(n, Init(n), 0);
    Overwrites(map[], 0, Verifies, Ends(0));
    assert Ended(n, 0) == Init(n).targets;
    MovesTo(n, At(Init(n), 0, Verifies), Ending(n, Ends(0), Ended(n, 0)), 0);
    EndsAll(n, n);
    Replaces(n, Ends(n), Clears, Ended(n, n));
    MovesTo(n, Ending(n, Ends(n), Ended(n, n)), Ending(n, Clears, Ended(n, n)), 0);
    Overwrites(map[], 0, Clears, Finished);
    MovesTo(n, Ending(n, Clears, Ended(n, n)),
            Finishing(Init(n), 0, Finished).(initialized := false, targets := Ended(n, n)), 0);
  }

  /** Whatever targets the log has, calling `finStatics` a second time leads to the throw. */
  lemma FinishingTwiceThrows(n: nat)
    ensures exists s :: Reached(n, s) && 1 in s.finishers && s.finishers[1].Thrown?
  {
    hide Reached;
    FinishReturns(n);
    var s := Finishing(Init(n), 0, Finished).(initialized := false, targets := Ended(n, n));
    GetsToVerify(n, s, 1);
    Overwrites(s.finishers, 1, Verifies, Thrown);
    MovesTo(n, At(s, 1, Verifies), At(s, 1, Thrown), 1);
  }

  lemma StartIsReached(n: nat)
    ensures Reached(n, Init(n))
  {
    assert Leads(Init(n), [], Init(n));
  }
}
