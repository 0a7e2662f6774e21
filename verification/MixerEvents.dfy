/**
 The event protocol of `src/mixer_plugin.c`: a counter under a mutex and an
 eventfd semaphore, updated in separate steps by notifiers and by the threads
 that read events or end a subscription. Each critical section is one step.
 */
module MixerEvents {
  import opened CTypes

  /** Where a library thread is. */
  datatype Pc =
    | Idle
    | Handed(events: nat)     // read_event returned events, the counter is not yet reduced
    | Clearing                // the callback is gone, the counter not yet cleared
    | Owing(left: nat)        // eventfd_read calls still to make

  datatype Sys = Sys(
    eventCnt: int,            // plugin->event_cnt
    efd: nat,                 // value of the eventfd semaphore
    registered: bool,         // the plugin has a callback to call
    listed: nat,              // events the plugin has notified and not yet handed over or dropped
    entered: nat,             // notifiers in the callback, before the critical section
    unwritten: nat,           // notifiers between the unlock and the eventfd_write
    threads: seq<Pc>)

  datatype Step =
    | Enter                   // the plugin calls mixer_plug_notifier_cb
    | Count                   // its critical section
    | Signal                  // its eventfd_write
    | Hand(i: nat, k: nat)    // thread i: read_event returns k events
    | Drop(k: nat)            // the plugin forgets k of the events it has notified
    | Subtract(i: nat)        // thread i: the critical section of mixer_plug_read_event
    | Take(i: nat)            // thread i: an eventfd_read that does not block
    | Finish(i: nat)
    | Register(i: nat)        // subscribe
    | Unregister(i: nat)      // unsubscribe: the callback is removed
    | Clear(i: nat)           // unsubscribe: the critical section

  function HandedBy(pc: Pc): nat {
    if pc.Handed? then pc.events else 0
  }

  function OwedBy(pc: Pc): nat {
    if pc.Owing? then pc.left else 0
  }

  function TotalHanded(threads: seq<Pc>): nat {
    if threads == [] then 0 else HandedBy(threads[0]) + TotalHanded(threads[1..])
  }

  function TotalOwed(threads: seq<Pc>): nat {
    if threads == [] then 0 else OwedBy(threads[0]) + TotalOwed(threads[1..])
  }

  lemma {:induction false} TotalsUpdate(threads: seq<Pc>, i: nat, pc: Pc)
    requires i < |threads|
    ensures TotalHanded(threads[i := pc]) == TotalHanded(threads) - HandedBy(threads[i]) + HandedBy(pc)
    ensures TotalOwed(threads[i := pc]) == TotalOwed(threads) - OwedBy(threads[i]) + OwedBy(pc)
    ensures HandedBy(threads[i]) <= TotalHanded(threads) && OwedBy(threads[i]) <= TotalOwed(threads)
  {
    if i == 0 {
      assert threads[i := pc][1..] == threads[1..];
    } else {
      TotalsUpdate(threads[1..], i - 1, pc);
      assert threads[i := pc][1..] == threads[1..][i - 1 := pc];
    }
  }

  /** What may happen. The plugin hands over only events it has notified, and each only once. */
  predicate Enabled(s: Sys, step: Step) {
    match step
    case Enter => s.registered
    case Count => s.entered > 0
    case Signal => s.unwritten > 0
    case Hand(i, k) => i < |s.threads| && s.threads[i] == Idle && 0 < k <= s.listed
    case Drop(k) => k <= s.listed
    case Subtract(i) => i < |s.threads| && s.threads[i].Handed?
    case Take(i) => i < |s.threads| && OwedBy(s.threads[i]) > 0 && s.efd > 0
    case Finish(i) => i < |s.threads| && s.threads[i] == Owing(0)
    case Register(i) => i < |s.threads| && s.threads[i] == Idle
    case Unregister(i) => i < |s.threads| && s.threads[i] == Idle
    case Clear(i) => i < |s.threads| && s.threads[i] == Clearing
  }

  /** The counter as the `unsigned` number of reads to make. */
  function AsReads(eventCnt: int): nat {
    if eventCnt >= 0 then eventCnt else ToUInt(eventCnt)
  }

  function Next(s: Sys, step: Step): Sys
    requires Enabled(s, step)
  {
    match step
    case Enter => s.(entered := s.entered + 1)
    case Count => s.(entered := s.entered - 1, eventCnt := s.eventCnt + 1, unwritten := s.unwritten + 1, listed := s.listed + 1)
    case Signal => s.(unwritten := s.unwritten - 1, efd := s.efd + 1)
    case Hand(i, k) => s.(listed := s.listed - k, threads := s.threads[i := Handed(k)])
    case Drop(k) => s.(listed := s.listed - k)
    case Subtract(i) => s.(eventCnt := s.eventCnt - s.threads[i].events, threads := s.threads[i := Owing(s.threads[i].events)])
    case Take(i) => s.(efd := s.efd - 1, threads := s.threads[i := Owing(s.threads[i].left - 1)])
    case Finish(i) => s.(threads := s.threads[i := Idle])
    case Register(i) => s.(registered := true)
    case Unregister(i) => s.(registered := false, threads := s.threads[i := Clearing])
    case Clear(i) => s.(eventCnt := 0, threads := s.threads[i := Owing(AsReads(s.eventCnt))])
  }

  /** Events notified of which the counter has not been reduced yet. */
  function Unread(s: Sys): nat {
    s.listed + TotalHanded(s.threads)
  }

  /** The counter and the reads still owed add up to the tokens and those about to be written. */
  predicate Exact(s: Sys) {
    s.eventCnt + TotalOwed(s.threads) == s.efd + s.unwritten
  }

  /** The same in the arithmetic of `unsigned`. */
  predicate Balanced(s: Sys) {
    ToUInt(s.eventCnt + TotalOwed(s.threads)) == ToUInt(s.efd + s.unwritten)
  }

  /** The books balance, and every event notified and not read is still counted. */
  predicate Inv(s: Sys) {
    Exact(s) && Unread(s) <= s.eventCnt
  }

  /** As `mixer_plugin_open` leaves it, with any number of threads to come. */
  predicate Start(s: Sys) {
    && s.eventCnt == 0 && s.efd == 0 && !s.registered && s.listed == 0 && s.entered == 0 && s.unwritten == 0
    && forall i :: 0 <= i < |s.threads| ==> s.threads[i] == Idle
  }

  lemma {:induction false} AllIdle(threads: seq<Pc>)
    requires forall i :: 0 <= i < |threads| ==> threads[i] == Idle
    ensures TotalHanded(threads) == 0 && TotalOwed(threads) == 0
  {
    if threads != [] {
      AllIdle(threads[1..]);
    }
  }

  /** What a step does to the totals. */
  lemma StepTotals(s: Sys, step: Step)
    requires Enabled(s, step)
    ensures TotalHanded(Next(s, step).threads) == TotalHanded(s.threads)
              + (if step.Hand? then step.k else 0) - (if step.Subtract? then s.threads[step.i].events else 0)
    ensures TotalOwed(Next(s, step).threads) == TotalOwed(s.threads)
              + (if step.Subtract? then s.threads[step.i].events else if step.Clear? then AsReads(s.eventCnt) else 0)
              - (if step.Take? then 1 else 0)
    ensures step.Subtract? ==> s.threads[step.i].events <= TotalHanded(s.threads)
    ensures step.Take? ==> 0 < TotalOwed(s.threads)
  {
    match step
    case Enter | Count | Signal | Drop(_) | Register(_) =>
    case Hand(i, k) => TotalsUpdate(s.threads, i, Handed(k));
    case Subtract(i) => TotalsUpdate(s.threads, i, Owing(s.threads[i].events));
    case Take(i) => TotalsUpdate(s.threads, i, Owing(s.threads[i].left - 1));
    case Finish(i) => TotalsUpdate(s.threads, i, Idle);
    case Unregister(i) => TotalsUpdate(s.threads, i, Clearing);
    case Clear(i) => TotalsUpdate(s.threads, i, Owing(AsReads(s.eventCnt)));
  }

  /** Every step keeps the books balanced: exactly, unless a counter below zero is cleared. */
  lemma StepKeepsBalance(s: Sys, step: Step)
    requires Enabled(s, step)
    ensures Balanced(s) ==> Balanced(Next(s, step))
    ensures Exact(s) && (step.Clear? ==> s.eventCnt >= 0) ==> Exact(Next(s, step))
  {
    hide TotalOwed, TotalHanded, ToUInt, AsReads;
    StepTotals(s, step);
    var s' := Next(s, step);
    var claims, cover := s.eventCnt + TotalOwed(s.threads), s.efd + s.unwritten;
    match step
    case Count => SameUInt(claims, cover, 1);
    case Take(_) => SameUInt(claims, cover, -1);
    case Clear(_) => ReadsOfCount(s.eventCnt, TotalOwed(s.threads));
    case Subtract(_) =>
      assert s'.eventCnt + TotalOwed(s'.threads) == claims;
    case _ =>
  }

  lemma SameUInt(a: int, b: int, d: int)
    ensures ToUInt(a) == ToUInt(b) ==> ToUInt(a + d) == ToUInt(b + d)
  {
  }

  lemma ReadsOfCount(eventCnt: int, owed: nat)
    ensures ToUInt(owed + AsReads(eventCnt)) == ToUInt(eventCnt + owed)
    ensures eventCnt >= 0 ==> AsReads(eventCnt) == eventCnt
  {
  }

  /** Every step keeps the invariant, a Clear exactly when no event is unread. */
  lemma StepKeepsInv(s: Sys, step: Step)
    requires Inv(s) && Enabled(s, step)
    ensures Inv(Next(s, step)) <==> (step.Clear? ==> Unread(s) == 0)
  {
    hide TotalOwed, TotalHanded, ToUInt;
    StepTotals(s, step);
    StepKeepsBalance(s, step);
  }

  // ---------------------------------------------------------------- whole runs

  predicate Legal(s: Sys, run: seq<Step>)
    decreases |run|, 0
  {
    run == [] || (Legal(s, run[..|run| - 1]) && Enabled(After(s, run[..|run| - 1]), run[|run| - 1]))
  }

  function After(s: Sys, run: seq<Step>): Sys
    requires Legal(s, run)
    decreases |run|, 1
  {
    if run == [] then s else Next(After(s, run[..|run| - 1]), run[|run| - 1])
  }

  /** Whenever a subscription is ended, the counter is not below zero as it is cleared. */
  predicate NaturalClears(s: Sys, run: seq<Step>)
    requires Legal(s, run)
  {
    run == [] ||
    (NaturalClears(s, run[..|run| - 1]) && (run[|run| - 1].Clear? ==> After(s, run[..|run| - 1]).eventCnt >= 0))
  }

  /** Whenever a subscription is ended, no event is unread as the counter is cleared. */
  predicate CleanClears(s: Sys, run: seq<Step>)
    requires Legal(s, run)
  {
    run == [] ||
    (CleanClears(s, run[..|run| - 1]) && (run[|run| - 1].Clear? ==> Unread(After(s, run[..|run| - 1])) == 0))
  }

  predicate NoRegister(run: seq<Step>) {
    forall j :: 0 <= j < |run| ==> !run[j].Register?
  }

  lemma RunExtends(s: Sys, run: seq<Step>, step: Step)
    requires Legal(s, run) && Enabled(After(s, run), step)
    ensures Legal(s, run + [step]) && After(s, run + [step]) == Next(After(s, run), step)
    ensures NaturalClears(s, run + [step]) <==> NaturalClears(s, run) && (step.Clear? ==> After(s, run).eventCnt >= 0)
    ensures CleanClears(s, run + [step]) <==> CleanClears(s, run) && (step.Clear? ==> Unread(After(s, run)) == 0)
    ensures NoRegister(run + [step]) <==> NoRegister(run) && !step.Register?
  {
    hide Enabled, Next, Unread;
    assert (run + [step])[..|run|] == run;
    assert forall j :: 0 <= j < |run| ==> (run + [step])[j] == run[j];
  }

  /**
   In every reachable state the counter and the reads still owed add up to the tokens and those
   about to be written, as `unsigned` numbers; exactly, if no counter below zero was cleared.
   */
  lemma {:induction false} RunKeepsBalance(s: Sys, run: seq<Step>)
    requires Start(s) && Legal(s, run)
    ensures Balanced(After(s, run))
    ensures NaturalClears(s, run) ==> Exact(After(s, run))
  {
    if run == [] {
      AllIdle(s.threads);
    } else {
      RunKeepsBalance(s, run[..|run| - 1]);
      StepKeepsBalance(After(s, run[..|run| - 1]), run[|run| - 1]);
    }
  }

  /** While no subscription is ended with events unread, every event unread is counted. */
  lemma {:induction false} RunKeepsInv(s: Sys, run: seq<Step>)
    requires (Start(s) || Inv(s)) && Legal(s, run) && CleanClears(s, run)
    ensures Inv(After(s, run)) && NaturalClears(s, run)
  {
    hide Balanced, Exact, TotalHanded, TotalOwed, Enabled;
    if run == [] {
      if Start(s) {
        AtStart(s);
      }
    } else {
      RunKeepsInv(s, run[..|run| - 1]);
      StepKeepsInv(After(s, run[..|run| - 1]), run[|run| - 1]);
    }
  }

  lemma AtStart(s: Sys)
    requires Start(s)
    ensures Inv(s)
  {
    AllIdle(s.threads);
  }

  /** What notifiers and readers do to the eventfd. */
  datatype Mark = Entered | Counted | Signalled | Taken

  predicate IsMarked(step: Step, m: Mark) {
    match m
    case Entered => step.Enter?
    case Counted => step.Count?
    case Signalled => step.Signal?
    case Taken => step.Take?
  }

  function CountOf(run: seq<Step>, m: Mark): nat {
    if run == [] then 0
    else CountOf(run[..|run| - 1], m) + (if IsMarked(run[|run| - 1], m) then 1 else 0)
  }

  lemma LedgerStep(s: Sys, step: Step)
    requires Enabled(s, step)
    ensures var s' := Next(s, step);
      && (if IsMarked(step, Entered) then 1 else 0) - (if IsMarked(step, Counted) then 1 else 0) == s'.entered - s.entered
      && (if IsMarked(step, Counted) then 1 else 0) - (if IsMarked(step, Signalled) then 1 else 0) == s'.unwritten - s.unwritten
      && (if IsMarked(step, Signalled) then 1 else 0) - (if IsMarked(step, Taken) then 1 else 0) == s'.efd - s.efd
  {
    hide TotalHanded, TotalOwed, AsReads;
  }

  /** Every notification is in the callback, counted and not signalled, a token, or a token taken. */
  lemma {:induction false} RunLedger(s: Sys, run: seq<Step>)
    requires Start(s) && Legal(s, run)
    ensures var s' := After(s, run);
      && CountOf(run, Entered) == s'.entered + CountOf(run, Counted)
      && CountOf(run, Counted) == s'.unwritten + CountOf(run, Signalled)
      && CountOf(run, Signalled) == s'.efd + CountOf(run, Taken)
  {
    if run != [] {
      RunLedger(s, run[..|run| - 1]);
      LedgerStep(After(s, run[..|run| - 1]), run[|run| - 1]);
      hide Enabled, Next, IsMarked;
    }
  }

  /** Once the callback is removed it is called no more, until someone subscribes. */
  lemma {:induction false} CallbackGone(s: Sys, run: seq<Step>, j: nat)
    requires Legal(s, run) && j < |run| && run[j].Unregister?
    requires forall k :: j < k < |run| ==> !run[k].Register?
    ensures !After(s, run).registered
    ensures forall k :: j < k < |run| ==> !run[k].Enter?
  {
    if j < |run| - 1 {
      var init := run[..|run| - 1];
      assert init[j] == run[j] && forall k :: j < k < |init| ==> init[k] == run[k];
      CallbackGone(s, init, j);
      assert !run[|run| - 1].Register?;
    }
  }

  // ---------------------------------------------------------------- reads that wait

  /** Reads are owed, and there is no token and no notifier about to write one. */
  predicate Starved(s: Sys) {
    s.efd == 0 && s.unwritten == 0 && TotalOwed(s.threads) > 0
  }

  /** A thread that owes a read waits only for a notifier that is about to write. */
  lemma NoLostWakeup(s: Sys, run: seq<Step>, i: nat)
    requires Start(s) && Legal(s, run) && CleanClears(s, run)
    requires i < |After(s, run).threads| && OwedBy(After(s, run).threads[i]) > 0
    ensures Enabled(After(s, run), Take(i)) || After(s, run).unwritten > 0
    ensures !Starved(After(s, run))
  {
    RunKeepsInv(s, run);
    TotalsUpdate(After(s, run).threads, i, Idle);
  }

  /** Kinds of runs: those that end subscriptions only with no event unread, those with no new subscription, any. */
  datatype Kind = Clean | Unsubscribed | Any

  /** A run of a kind, in which no counter below zero is cleared, leads from `s0` to `s`. */
  ghost predicate Leads(s0: Sys, run: seq<Step>, kind: Kind, s: Sys) {
    && Legal(s0, run) && NaturalClears(s0, run) && After(s0, run) == s
    && (kind.Clean? ==> CleanClears(s0, run)) && (kind.Unsubscribed? ==> NoRegister(run))
  }

  ghost predicate CanReach(s0: Sys, kind: Kind, s: Sys) {
    exists run :: Leads(s0, run, kind, s)
  }

  lemma ReachItself(s: Sys, kind: Kind)
    ensures CanReach(s, kind, s)
  {
    assert Leads(s, [], kind, s);
  }

  lemma ReachNext(s0: Sys, kind: Kind, s: Sys, step: Step)
    requires CanReach(s0, kind, s) && Enabled(s, step)
    requires step.Register? ==> !kind.Unsubscribed?
    requires step.Clear? ==> !kind.Clean? && s.eventCnt >= 0
    ensures CanReach(s0, kind, Next(s, step))
  {
    hide Legal, After, NaturalClears, CleanClears, Enabled, Next, NoRegister;
    var run :| Leads(s0, run, kind, s);
    RunExtends(s0, run, step);
    assert Leads(s0, run + [step], kind, Next(s, step));
  }

  /** With the counter at zero, all reads owed can be made: their tokens are there or about to be. */
  lemma {:induction false} Drain(s0: Sys, kind: Kind, s: Sys) returns (s': Sys)
    requires CanReach(s0, kind, s) && Exact(s) && s.eventCnt == 0
    ensures CanReach(s0, kind, s') && s' == s.(efd := 0, unwritten := 0, threads := s'.threads)
    ensures |s'.threads| == |s.threads| && TotalOwed(s'.threads) == 0 && TotalHanded(s'.threads) == TotalHanded(s.threads)
    ensures forall t :: 0 <= t < |s.threads| ==>
              if s.threads[t].Owing? then s'.threads[t] == Owing(0) else s'.threads[t] == s.threads[t]
    decreases s.unwritten, s.efd
  {
    hide CanReach;
    if s.unwritten > 0 {
      ReachNext(s0, kind, s, Signal);
      s' := Drain(s0, kind, Next(s, Signal));
    } else if s.efd > 0 {
      var i := SomeoneOwes(s.threads);
      ReachNext(s0, kind, s, Take(i));
      StepTotals(s, Take(i));
      s' := Drain(s0, kind, Next(s, Take(i)));
    } else {
      s' := s;
      forall t | 0 <= t < |s.threads| && s.threads[t].Owing?
        ensures s.threads[t] == Owing(0)
      {
        TotalsUpdate(s.threads, t, Idle);
      }
    }
  }

  /**
   From a state in which all unread events are counted, ending a subscription is safe exactly when
   no event is unread: then no read is ever starved while later subscriptions are ended as
   cleanly, otherwise some run starves one.
   */
  lemma LostWakeupIff(s: Sys, i: nat)
    requires Inv(s) && Enabled(s, Clear(i))
    ensures (forall run :: Legal(Next(s, Clear(i)), run) && CleanClears(Next(s, Clear(i)), run) ==>
                             !Starved(After(Next(s, Clear(i)), run)))
       <==> Unread(s) == 0
  {
    hide Legal, After, CleanClears, NaturalClears, TotalOwed, TotalHanded;
    var s0 := Next(s, Clear(i));
    if Unread(s) == 0 {
      StepKeepsInv(s, Clear(i));
      forall run | Legal(s0, run) && CleanClears(s0, run)
        ensures !Starved(After(s0, run))
      {
        RunKeepsInv(s0, run);
      }
    } else {
      var s1 := Starve(s, i);
      var run :| Leads(s0, run, Clean, s1);
      assert Legal(s0, run) && CleanClears(s0, run) && Starved(After(s0, run));
    }
  }

  /** How a read is starved: the reads are made, the events are handed over, and one reader counts them off. */
  lemma Starve(s: Sys, i: nat) returns (s': Sys)
    requires Inv(s) && Enabled(s, Clear(i)) && Unread(s) > 0
    ensures CanReach(Next(s, Clear(i)), Clean, s') && Starved(s')
  {
    hide CanReach;
    var s0 := Next(s, Clear(i));
    ReachItself(s0, Clean);
    StepTotals(s, Clear(i));
    var s1 := Drain(s0, Clean, s0);
    if TotalHanded(s1.threads) == 0 {
      StepTotals(s1, Finish(i));
      ReachNext(s0, Clean, s1, Finish(i));
      s1 := Next(s1, Finish(i));
      StepTotals(s1, Hand(i, s1.listed));
      ReachNext(s0, Clean, s1, Hand(i, s1.listed));
      s1 := Next(s1, Hand(i, s1.listed));
    }
    var j := SomeoneHolds(s1.threads);
    StepTotals(s1, Subtract(j));
    ReachNext(s0, Clean, s1, Subtract(j));
    s' := Next(s1, Subtract(j));
  }

  /**
   The failure is real: from every start with two threads, one can read an event and the other end the
   subscription before the first has counted it off, and take the token the first will wait for.
   */
  lemma ReadDuringUnsubscribe(s: Sys)
    requires Start(s) && |s.threads| >= 2
    ensures exists run :: Legal(s, run) && NaturalClears(s, run) && Starved(After(s, run)) && After(s, run).eventCnt == -1
  {
    hide CanReach;
    ReachItself(s, Any);
    var s1 := Go(s, s, Register(1));
    s1 := Go(s, s1, Enter);
    s1 := Go(s, s1, Count);
    s1 := Go(s, s1, Signal);
    s1 := Go(s, s1, Hand(0, 1));
    s1 := Go(s, s1, Unregister(1));
    s1 := Go(s, s1, Clear(1));
    s1 := Go(s, s1, Take(1));
    s1 := Go(s, s1, Subtract(0));
    TotalsUpdate(s1.threads, 0, Idle);
    assert Starved(s1) && s1.eventCnt == -1;
    SomeRun(s, s1);
  }

  lemma Go(s0: Sys, s: Sys, step: Step) returns (s': Sys)
    requires CanReach(s0, Any, s) && Enabled(s, step) && (step.Clear? ==> s.eventCnt >= 0)
    ensures s' == Next(s, step) && CanReach(s0, Any, s')
  {
    s' := Next(s, step);
    ReachNext(s0, Any, s, step);
  }

  lemma SomeRun(s0: Sys, s: Sys)
    requires CanReach(s0, Any, s)
    ensures exists run :: Legal(s0, run) && NaturalClears(s0, run) && After(s0, run) == s
  {
    hide Legal, After, NaturalClears;
    var run :| Leads(s0, run, Any, s);
    assert Legal(s0, run);
  }

  /**
   Left to themselves, pending writes and owed reads go on, every such step brings the end nearer, and
   what is left at the end are the reads a counter below zero stands for.
   */
  lemma {:induction false} DrainsCompletely(s: Sys)
    requires Exact(s)
    ensures (s.unwritten == 0 && forall i :: 0 <= i < |s.threads| ==> !Enabled(s, Take(i))) ==>
              TotalOwed(s.threads) == if s.eventCnt < 0 then -s.eventCnt else 0
    ensures forall step: Step | (step.Signal? || step.Take?) && Enabled(s, step) ::
              Next(s, step).unwritten + TotalOwed(Next(s, step).threads) < s.unwritten + TotalOwed(s.threads)
  {
    if TotalOwed(s.threads) > 0 {
      var i := SomeoneOwes(s.threads);
      assert s.efd > 0 ==> Enabled(s, Take(i));
    }
    forall step: Step | (step.Signal? || step.Take?) && Enabled(s, step)
      ensures Next(s, step).unwritten + TotalOwed(Next(s, step).threads) < s.unwritten + TotalOwed(s.threads)
    {
      StepTotals(s, step);
    }
  }

  lemma {:induction false} SomeoneOwes(threads: seq<Pc>) returns (i: nat)
    requires TotalOwed(threads) > 0
    ensures i < |threads| && OwedBy(threads[i]) > 0
  {
    if OwedBy(threads[0]) > 0 {
      i := 0;
    } else {
      i := SomeoneOwes(threads[1..]);
      i := i + 1;
    }
  }

  lemma {:induction false} SomeoneHolds(threads: seq<Pc>) returns (i: nat)
    requires TotalHanded(threads) > 0
    ensures i < |threads| && HandedBy(threads[i]) > 0
  {
    if HandedBy(threads[0]) > 0 {
      i := 0;
    } else {
      i := SomeoneHolds(threads[1..]);
      i := i + 1;
    }
  }

  // ---------------------------------------------------------------- ending a subscription

  /** No callback, and no event counted. */
  predicate Quiet(s: Sys) {
    !s.registered && s.entered == 0 && s.eventCnt == 0
  }

  /** No thread is in the library and no notifier has a write to make. */
  predicate AtRest(s: Sys) {
    s.entered == 0 && s.unwritten == 0 && forall i :: 0 <= i < |s.threads| ==> s.threads[i] == Idle
  }

  /** Until someone subscribes again, a quiet system stays quiet. */
  lemma {:induction false} QuietStays(s: Sys, run: seq<Step>)
    requires Inv(s) && Quiet(s) && Legal(s, run) && NoRegister(run)
    ensures Inv(After(s, run)) && Quiet(After(s, run))
  {
    if run != [] {
      var init := run[..|run| - 1];
      QuietStays(s, init);
      assert !run[|run| - 1].Register?;
      StepKeepsInv(After(s, init), run[|run| - 1]);
      StepTotals(After(s, init), run[|run| - 1]);
    }
  }

  /** What the counter can still come to while no one subscribes: each event held takes one off. */
  function Outlook(s: Sys): int {
    s.eventCnt + s.entered - TotalHanded(s.threads)
  }

  lemma {:induction false} OutlookShrinks(s: Sys, run: seq<Step>)
    requires Exact(s) && !s.registered && Legal(s, run) && NoRegister(run) && NaturalClears(s, run)
    requires Outlook(s) <= 0
    ensures Exact(After(s, run)) && !After(s, run).registered && Outlook(After(s, run)) <= 0
  {
    if run != [] {
      var init, last := run[..|run| - 1], run[|run| - 1];
      OutlookShrinks(s, init);
      assert !last.Register?;
      StepKeepsBalance(After(s, init), last);
      StepTotals(After(s, init), last);
    }
  }

  /**
   Once a subscription has been ended with no more notifiers in the callback than events in readers' hands,
   whatever else happens both counters are zero when the system comes to rest.
   */
  lemma UnsubscribeLeavesNothing(s: Sys, i: nat, run: seq<Step>)
    requires Exact(s) && s.eventCnt >= 0 && Enabled(s, Clear(i)) && !s.registered && s.entered <= TotalHanded(s.threads)
    requires Legal(Next(s, Clear(i)), run) && NoRegister(run) && NaturalClears(Next(s, Clear(i)), run)
    requires AtRest(After(Next(s, Clear(i)), run))
    ensures After(Next(s, Clear(i)), run).eventCnt == 0 && After(Next(s, Clear(i)), run).efd == 0
  {
    StepKeepsBalance(s, Clear(i));
    StepTotals(s, Clear(i));
    OutlookShrinks(Next(s, Clear(i)), run);
    AllIdle(After(Next(s, Clear(i)), run).threads);
  }

  /**
   That is exact: with more notifiers in the callback some run comes to rest with the difference in both
   counters. When no reader holds events, the condition is that no notifier is in the callback.
   */
  lemma LateNotifier(s: Sys, i: nat)
    requires Exact(s) && s.eventCnt >= 0 && Enabled(s, Clear(i)) && !s.registered
    ensures (forall run :: Legal(Next(s, Clear(i)), run) && NoRegister(run) && NaturalClears(Next(s, Clear(i)), run)
                           && AtRest(After(Next(s, Clear(i)), run)) ==>
                             After(Next(s, Clear(i)), run).eventCnt == 0 && After(Next(s, Clear(i)), run).efd == 0)
       <==> s.entered <= TotalHanded(s.threads)
  {
    var s0 := Next(s, Clear(i));
    if s.entered <= TotalHanded(s.threads) {
      forall run | Legal(s0, run) && NoRegister(run) && NaturalClears(s0, run) && AtRest(After(s0, run))
        ensures After(s0, run).eventCnt == 0 && After(s0, run).efd == 0
      {
        UnsubscribeLeavesNothing(s, i, run);
      }
    } else {
      var s1 := ComeToRest(s, i);
      var run :| Leads(s0, run, Unsubscribed, s1);
      assert Legal(s0, run) && AtRest(After(s0, run)) && After(s0, run).eventCnt > 0;
    }
  }

  lemma ComeToRest(s: Sys, i: nat) returns (s': Sys)
    requires Exact(s) && s.eventCnt >= 0 && Enabled(s, Clear(i)) && s.entered >= TotalHanded(s.threads)
    ensures CanReach(Next(s, Clear(i)), Unsubscribed, s') && AtRest(s')
    ensures s'.eventCnt == s'.efd == s.entered - TotalHanded(s.threads)
  {
    hide CanReach;
    var s0 := Next(s, Clear(i));
    ReachItself(s0, Unsubscribed);
    StepKeepsBalance(s, Clear(i));
    StepTotals(s, Clear(i));
    s' := ClearAll(s0, s0, 0);
    s' := CountAll(s0, s');
    s' := SettleAll(s0, s', 0);
    AllIdle(s'.threads);
    s' := SignalAll(s0, s');
  }

  /** Other threads that are ending the subscription find nothing to clear. */
  lemma {:induction false} ClearAll(s0: Sys, s: Sys, n: nat) returns (s': Sys)
    requires CanReach(s0, Unsubscribed, s) && Exact(s) && s.eventCnt == 0 && n <= |s.threads|
    requires forall t :: 0 <= t < n ==> s.threads[t] != Clearing
    ensures CanReach(s0, Unsubscribed, s') && Exact(s') && s' == s.(threads := s'.threads)
    ensures TotalHanded(s'.threads) == TotalHanded(s.threads)
    ensures forall t :: 0 <= t < |s'.threads| ==> s'.threads[t] != Clearing
    decreases |s.threads| - n
  {
    hide CanReach;
    if n == |s.threads| {
      s' := s;
    } else if s.threads[n] == Clearing {
      ReachNext(s0, Unsubscribed, s, Clear(n));
      StepKeepsBalance(s, Clear(n));
      StepTotals(s, Clear(n));
      s' := ClearAll(s0, Next(s, Clear(n)), n + 1);
    } else {
      s' := ClearAll(s0, s, n + 1);
    }
  }

  lemma {:induction false} CountAll(s0: Sys, s: Sys) returns (s': Sys)
    requires CanReach(s0, Unsubscribed, s) && Exact(s)
    ensures CanReach(s0, Unsubscribed, s') && Exact(s') && s'.entered == 0 && s'.threads == s.threads
    ensures s'.eventCnt == s.eventCnt + s.entered
    decreases s.entered
  {
    hide CanReach;
    if s.entered == 0 {
      s' := s;
    } else {
      ReachNext(s0, Unsubscribed, s, Count);
      s' := CountAll(s0, Next(s, Count));
    }
  }

  /** A thread with its events still counted, or its reads covered, gets through. */
  lemma {:induction false} SettleThread(s0: Sys, s: Sys, n: nat) returns (s': Sys)
    requires CanReach(s0, Unsubscribed, s) && Exact(s) && TotalHanded(s.threads) <= s.eventCnt
    requires n < |s.threads| && s.threads[n] != Clearing
    ensures CanReach(s0, Unsubscribed, s') && Exact(s') && s'.entered == s.entered && s'.threads == s.threads[n := Idle]
    ensures s'.eventCnt - TotalHanded(s'.threads) == s.eventCnt - TotalHanded(s.threads)
    decreases HandedBy(s.threads[n]) + OwedBy(s.threads[n]),
              match s.threads[n] case Handed(_) => 2 case Owing(_) => 1 case _ => 0, s.unwritten
  {
    hide CanReach;
    match s.threads[n]
    case Idle =>
      s' := s;
      assert s.threads[n := Idle] == s.threads;
    case Handed(k) =>
      StepTotals(s, Subtract(n));
      ReachNext(s0, Unsubscribed, s, Subtract(n));
      s' := SettleThread(s0, Next(s, Subtract(n)), n);
      assert s.threads[n := Owing(k)][n := Idle] == s.threads[n := Idle];
    case Owing(k) =>
      TotalsUpdate(s.threads, n, Idle);
      if k == 0 {
        StepTotals(s, Finish(n));
        ReachNext(s0, Unsubscribed, s, Finish(n));
        s' := Next(s, Finish(n));
      } else if s.efd == 0 {
        ReachNext(s0, Unsubscribed, s, Signal);
        s' := SettleThread(s0, Next(s, Signal), n);
      } else {
        StepTotals(s, Take(n));
        ReachNext(s0, Unsubscribed, s, Take(n));
        s' := SettleThread(s0, Next(s, Take(n)), n);
        assert s.threads[n := Owing(k - 1)][n := Idle] == s.threads[n := Idle];
      }
  }

  lemma {:induction false} SettleAll(s0: Sys, s: Sys, n: nat) returns (s': Sys)
    requires CanReach(s0, Unsubscribed, s) && Exact(s) && TotalHanded(s.threads) <= s.eventCnt && n <= |s.threads|
    requires forall t :: 0 <= t < |s.threads| ==> s.threads[t] != Clearing && (t < n ==> s.threads[t] == Idle)
    ensures CanReach(s0, Unsubscribed, s') && Exact(s') && s'.entered == s.entered
    ensures forall t :: 0 <= t < |s'.threads| ==> s'.threads[t] == Idle
    ensures s'.eventCnt - TotalHanded(s'.threads) == s.eventCnt - TotalHanded(s.threads)
    decreases |s.threads| - n
  {
    hide CanReach, TotalHanded, Exact;
    if n == |s.threads| {
      s' := s;
    } else {
      s' := SettleThread(s0, s, n);
      s' := SettleAll(s0, s', n + 1);
    }
  }

  lemma {:induction false} SignalAll(s0: Sys, s: Sys) returns (s': Sys)
    requires CanReach(s0, Unsubscribed, s) && Exact(s)
    ensures CanReach(s0, Unsubscribed, s') && Exact(s') && s' == s.(unwritten := 0, efd := s.efd + s.unwritten)
    decreases s.unwritten
  {
    hide CanReach;
    if s.unwritten == 0 {
      s' := s;
    } else {
      ReachNext(s0, Unsubscribed, s, Signal);
      s' := SignalAll(s0, Next(s, Signal));
    }
  }

  // ---------------------------------------------------------------- the code

  /** The steps of thread `i`. */
  predicate IsBy(step: Step, i: nat) {
    match step
    case Enter | Count | Signal | Drop(_) => false
    case Hand(j, _) => j == i
    case Subtract(j) => j == i
    case Take(j) => j == i
    case Finish(j) => j == i
    case Register(j) => j == i
    case Unregister(j) => j == i
    case Clear(j) => j == i
  }

  /** The eventfd_read calls thread `i` has made. */
  function TakesBy(run: seq<Step>, i: nat): nat {
    if run == [] then 0
    else TakesBy(run[..|run| - 1], i) + (if run[|run| - 1] == Take(i) then 1 else 0)
  }

  lemma TakesByAppend(run: seq<Step>, step: Step, i: nat)
    ensures TakesBy(run + [step], i) == TakesBy(run, i) + (if step == Take(i) then 1 else 0)
  {
    assert (run + [step])[..|run|] == run;
  }

  lemma OthersLeaveMe(s: Sys, step: Step, me: nat)
    requires Enabled(s, step) && !IsBy(step, me) && me < |s.threads|
    ensures |Next(s, step).threads| == |s.threads| && Next(s, step).threads[me] == s.threads[me]
  {
  }

  /** `struct mixer_plugin`, with the state of its surroundings. */
  class MixerPlugin {
    var eventCnt: int
    var eventfd: nat
    var subscribed: bool
    // the plugin, the notifiers and the threads in the library
    var registered: bool
    var listed: nat
    var entered: nat
    var unwritten: nat
    var threads: seq<Pc>
    ghost const origin: Sys
    ghost var trace: seq<Step>

    function Model(): Sys
      reads this
    {
      Sys(eventCnt, eventfd, registered, listed, entered, unwritten, threads)
    }

    /** What has happened is a run of the protocol. */
    ghost predicate Valid()
      reads this
    {
      Start(origin) && Legal(origin, trace) && After(origin, trace) == Model()
    }

    /** `mixer_plugin_open`; `n` threads will use the mixer. */
    constructor (n: nat)
      ensures Valid() && !subscribed && trace == []
      ensures |threads| == n && forall i :: 0 <= i < n ==> threads[i] == Idle
    {
      eventCnt, eventfd, subscribed, registered, listed, entered, unwritten := 0, 0, false, false, 0, 0, 0;
      threads := seq(n, _ => Idle);
      trace := [];
      origin := Sys(0, 0, false, 0, 0, 0, seq(n, _ => Idle));
    }

    ghost method Record(s: Sys, step: Step)
      requires Start(origin) && Legal(origin, trace) && After(origin, trace) == s
      requires Enabled(s, step) && Model() == Next(s, step)
      modifies `trace
      ensures Valid() && trace == old(trace) + [step]
    {
      RunExtends(origin, trace, step);
      hide Legal, After, Start, Enabled, Next, NaturalClears, CleanClears, NoRegister;
      trace := trace + [step];
    }

    /** One step of anyone but thread `me`, which may keep a notifier of its own at each stage. */
    method OtherStep(me: nat, entering: nat, writing: nat)
      requires Valid() && me < |threads| && entering <= entered && writing <= unwritten
      modifies `eventCnt, `eventfd, `registered, `listed, `entered, `unwritten, `threads, `trace, `subscribed
      ensures Valid() && entering <= entered && writing <= unwritten
      ensures |threads| == old(|threads|) && threads[me] == old(threads[me])
      ensures old(trace) <= trace && TakesBy(trace, me) == TakesBy(old(trace), me)
    {
      hide Legal, After, Start, Inv, TakesBy, TotalHanded, TotalOwed;
      var step: Step := *;
      var s := Model();
      if Enabled(s, step) && !IsBy(step, me) && (step.Count? ==> entering < entered) && (step.Signal? ==> writing < unwritten) {
        TakesByAppend(trace, step, me);
        OthersLeaveMe(s, step, me);
        var s' := Next(s, step);
        eventCnt, eventfd, registered, listed := s'.eventCnt, s'.efd, s'.registered, s'.listed;
        entered, unwritten, threads := s'.entered, s'.unwritten, s'.threads;
        Record(s, step);
        // other threads set it when they subscribe or end a subscription
        subscribed := *;
      }
    }

    /** Any number of them. */
    method Others(me: nat, entering: nat, writing: nat)
      requires Valid() && me < |threads| && entering <= entered && writing <= unwritten
      modifies `eventCnt, `eventfd, `registered, `listed, `entered, `unwritten, `threads, `trace, `subscribed
      ensures Valid() && entering <= entered && writing <= unwritten
      ensures |threads| == old(|threads|) && threads[me] == old(threads[me])
      ensures old(trace) <= trace && TakesBy(trace, me) == TakesBy(old(trace), me)
    {
      var steps :| 0 <= steps;
      for i := 0 to steps
        invariant Valid() && entering <= entered && writing <= unwritten
        invariant |threads| == old(|threads|) && threads[me] == old(threads[me])
        invariant old(trace) <= trace && TakesBy(trace, me) == TakesBy(old(trace), me)
      {
        OtherStep(me, entering, writing);
      }
    }

    /** `mixer_plug_notifier_cb`, called by the plugin; thread `me` is of no account here. */
    method NotifierCb(me: nat)
      requires Valid() && registered && me < |threads|
      modifies `eventCnt, `eventfd, `registered, `listed, `entered, `unwritten, `threads, `trace, `subscribed
      ensures Valid() && BooksBalance()
      // the event is counted first and signalled after, whatever others do in between
      ensures |old(trace)| + 2 < |trace| && trace[..|old(trace)|] == old(trace)
      ensures trace[|old(trace)|] == Enter && trace[|trace| - 1] == Signal
      ensures exists j :: |old(trace)| < j < |trace| - 1 && trace[j] == Count
    {
      hide Legal, After, Start, Inv, TakesBy, TotalHanded, TotalOwed;
      var s := Model();
      entered := entered + 1;
      Record(s, Enter);
      Others(me, 1, 0);
      s := Model();
      eventCnt, listed, entered, unwritten := eventCnt + 1, listed + 1, entered - 1, unwritten + 1;
      Record(s, Count);
      ghost var counted := trace;
      assert counted[|counted| - 1] == Count;
      Others(me, 0, 1);
      s := Model();
      eventfd, unwritten := eventfd + 1, unwritten - 1;
      Record(s, Signal);
      assert trace[|counted| - 1] == Count;
      Books();
    }

    /** The counters balance, and with every subscription ended cleanly no event is uncounted. */
    ghost predicate BooksBalance()
      reads this
    {
      Balanced(Model()) && (Legal(origin, trace) && CleanClears(origin, trace) ==> Inv(Model()))
    }

    lemma Books()
      requires Valid()
      ensures BooksBalance()
    {
      RunKeepsBalance(origin, trace);
      if CleanClears(origin, trace) {
        RunKeepsInv(origin, trace);
      }
    }

    /**
     `eventfd_read`. When there is no token the call waits for the write of a notifier that has counted
     its event. If there is no such notifier it is not `done`, which takes a subscription not ended cleanly.
     */
    method EventfdRead(me: nat) returns (done: bool)
      requires Valid() && me < |threads| && OwedBy(threads[me]) > 0
      modifies `eventCnt, `eventfd, `registered, `listed, `entered, `unwritten, `threads, `trace, `subscribed
      ensures Valid() && |threads| == old(|threads|) && old(trace) <= trace
      ensures done ==> threads[me] == Owing(old(threads[me]).left - 1) && TakesBy(trace, me) == TakesBy(old(trace), me) + 1
      ensures !done ==> threads[me] == old(threads[me]) && Starved(Model())
      ensures CleanClears(origin, trace) ==> done
    {
      hide Legal, After, Start, Inv, TakesBy, TotalHanded, TotalOwed, NaturalClears, CleanClears;
      Others(me, 0, 0);
      if eventfd == 0 {
        if unwritten == 0 {
          TotalsUpdate(threads, me, Idle);
          if CleanClears(origin, trace) {
            NoLostWakeup(origin, trace, me);
          }
          return false;
        }
        AwaitWrite(me);
      }
      var s := Model();
      eventfd := eventfd - 1;
      threads := threads[me := Owing(threads[me].left - 1)];
      TakesByAppend(trace, Take(me), me);
      Record(s, Take(me));
      done := true;
    }

    /** A notifier that is about to write does so. */
    method AwaitWrite(me: nat)
      requires Valid() && unwritten > 0 && me < |threads|
      modifies `eventfd, `unwritten, `trace
      ensures Valid() && eventfd == old(eventfd) + 1
      ensures old(trace) <= trace && TakesBy(trace, me) == TakesBy(old(trace), me)
    {
      hide Legal, After, Start, Inv, TakesBy, TotalHanded, TotalOwed;
      var s := Model();
      eventfd, unwritten := eventfd + 1, unwritten - 1;
      TakesByAppend(trace, Signal, me);
      Record(s, Signal);
    }

    /** The loop that makes the reads a thread owes. */
    method MakeReads(me: nat, count: nat) returns (done: bool)
      requires Valid() && me < |threads| && threads[me] == Owing(count)
      modifies `eventCnt, `eventfd, `registered, `listed, `entered, `unwritten, `threads, `trace, `subscribed
      ensures Valid() && |threads| == old(|threads|) && old(trace) <= trace
      ensures done ==> threads[me] == Idle && TakesBy(trace, me) == TakesBy(old(trace), me) + count
      ensures !done ==> Starved(Model())
      ensures CleanClears(origin, trace) ==> done
    {
      hide Legal, After, Start, Inv, TakesBy, TotalHanded, TotalOwed, NaturalClears, CleanClears, Starved;
      for i := 0 to count
        invariant Valid() && |threads| == old(|threads|) && threads[me] == Owing(count - i)
        invariant old(trace) <= trace && TakesBy(trace, me) == TakesBy(old(trace), me) + i
      {
        done := EventfdRead(me);
        if !done {
          return;
        }
      }
      var s := Model();
      threads := threads[me := Idle];
      TakesByAppend(trace, Finish(me), me);
      Record(s, Finish(me));
      done := true;
    }

    /**
     `mixer_plug_read_event`: `events` is what the plugin's own read_event returns, in events. One token
     is taken for every event handed over; a call that is not `done` waits for one that no one will write.
     */
    method ReadEvent(me: nat, events: nat) returns (done: bool)
      requires Valid() && me < |threads| && threads[me] == Idle && events <= listed
      modifies `eventCnt, `eventfd, `registered, `listed, `entered, `unwritten, `threads, `trace, `subscribed
      ensures Valid() && BooksBalance() && |threads| == old(|threads|)
      ensures done ==> threads[me] == Idle && TakesBy(trace, me) == TakesBy(old(trace), me) + events
      ensures !done ==> Starved(Model())
      ensures CleanClears(origin, trace) ==> done
    {
      hide Legal, After, Start, Inv, TakesBy, TotalHanded, TotalOwed, NaturalClears, CleanClears, Starved, BooksBalance;
      done := true;
      if events > 0 {
        var s := Model();
        listed, threads := listed - events, threads[me := Handed(events)];
        TakesByAppend(trace, Hand(me, events), me);
        Record(s, Hand(me, events));
        Others(me, 0, 0);
        s := Model();
        eventCnt, threads := eventCnt - events, threads[me := Owing(events)];
        TakesByAppend(trace, Subtract(me), me);
        Record(s, Subtract(me));
        done := MakeReads(me, events);
      }
      Books();
    }

    /** What ending a subscription does: all events counted when the counter is cleared are read off. */
    ghost predicate EndsSubscription(before: seq<Step>, me: nat)
      reads `trace
    {
      && |before| < |trace| && trace[..|before|] == before && trace[|before|] == Unregister(me)
      && exists j :: ClearedAt(before, me, j)
    }

    ghost predicate ClearedAt(before: seq<Step>, me: nat, j: nat)
      reads `trace
    {
      && |before| < j < |trace| && trace[j] == Clear(me) && Legal(origin, trace[..j])
      && TakesBy(trace, me) == TakesBy(before, me) + AsReads(After(origin, trace[..j]).eventCnt)
    }

    /** `mixer_plug_subscribe_events`. A value out of range is answered with what is in force. */
    method SubscribeEvents(me: nat, subscribe: int) returns (done: bool, ok: bool, inForce: int)
      requires Valid() && me < |threads| && threads[me] == Idle
      modifies `eventCnt, `eventfd, `registered, `listed, `entered, `unwritten, `threads, `trace, `subscribed
      ensures Valid() && BooksBalance() && |threads| == old(|threads|)
      ensures !done ==> Starved(Model()) && subscribe == 0 && old(subscribed)
      ensures CleanClears(origin, trace) ==> done
      ensures done ==> threads[me] == Idle && ok == (0 <= subscribe <= 1)
      ensures done ==> subscribed == (if ok then subscribe == 1 else old(subscribed)) && inForce == if subscribed then 1 else 0
      ensures done && ok && subscribe == 1 && !old(subscribed) ==> registered && trace == old(trace) + [Register(me)]
      ensures done && ok && subscribe == 0 && old(subscribed) ==> EndsSubscription(old(trace), me)
      // and the plugin has no callback any more, unless another thread has subscribed since
      ensures done && ok && subscribe == 0 && old(subscribed) ==>
                (forall k :: |old(trace)| < k < |trace| ==> !trace[k].Register?) ==> !registered
      ensures done && (!ok || subscribed == old(subscribed)) ==> Model() == old(Model()) && trace == old(trace)
    {
      hide Legal, After, Start, Inv, TakesBy, TotalHanded, TotalOwed, NaturalClears, CleanClears, Starved, BooksBalance;
      done, ok := true, 0 <= subscribe <= 1;
      if !ok {
        Books();
        inForce := if subscribed then 1 else 0;
        return;
      }
      if subscribe == 1 && !subscribed {
        var s := Model();
        registered := true;
        Record(s, Register(me));
      } else if subscribed && subscribe == 0 {
        done := Unsubscribe(me);
        if !done {
          Books();
          inForce := 1;
          return;
        }
      }
      subscribed := subscribe == 1;
      inForce := subscribe;
      Books();
    }

    /** The branch of `mixer_plug_subscribe_events` that ends a subscription. */
    method Unsubscribe(me: nat) returns (done: bool)
      requires Valid() && me < |threads| && threads[me] == Idle
      modifies `eventCnt, `eventfd, `registered, `listed, `entered, `unwritten, `threads, `trace, `subscribed
      ensures Valid() && |threads| == old(|threads|)
      ensures done ==> threads[me] == Idle && EndsSubscription(old(trace), me)
      ensures (forall k :: |old(trace)| < k < |trace| ==> !trace[k].Register?) ==> !registered
      ensures |old(trace)| < |trace|
      ensures !done ==> Starved(Model())
      ensures CleanClears(origin, trace) ==> done
    {
      hide Legal, After, Start, Inv, TakesBy, TotalHanded, TotalOwed, NaturalClears, CleanClears, Starved, AsReads;
      ghost var before := trace;
      var s := Model();
      registered, threads := false, threads[me := Clearing];
      TakesByAppend(trace, Unregister(me), me);
      Record(s, Unregister(me));
      Others(me, 0, 0);
      s := Model();
      var count := AsReads(eventCnt);
      ghost var j := |trace|;
      ghost var until := trace;
      eventCnt, threads := 0, threads[me := Owing(count)];
      TakesByAppend(trace, Clear(me), me);
      Record(s, Clear(me));
      done := MakeReads(me, count);
      assert trace[|before|] == Unregister(me);
      if forall k :: |before| < k < |trace| ==> !trace[k].Register? {
        CallbackGone(origin, trace, |before|);
      }
      if done {
        assert trace[..j] == until;
        assert ClearedAt(before, me, j);
      }
    }
  }
}
