/** Progress of the exchange: nothing waits for ever while a daemon is up, and a stop drains
    every blocked thread exactly when it misses the window between a client's last look at
    pidDaemon and its arming of semRqDone. */
module ExchangeProgress {
  import opened Exchange
  import opened ExchangeInvariant
  import opened ExchangeRuns

  /** How far a client is from returning. */
  function ClientRank<B>(pc: ClientPc<B>): nat {
    match pc
    case Entry => 20
    case PidCheck => 19
    case Request => 18
    case Recheck => 17
    case Fill => 16
    case Arm => 15
    case Post => 14
    case Wait => 4
    case Check => 3
    case Copy => 2
    case Dead => 1
    case Release(_) => 1
    case Returned(_) => 0
  }

  /** How far the daemon is from waiting with no request posted or, once it stops, from
      being gone. */
  function DaemonRank<D, B>(s: State<D, B>): nat {
    match s.daemon
    case Absent => 0
    case Unlocking => 1
    case Requesting => 2
    case Posting => 3
    case Dying => 4
    case Waiting => if s.rqAvail then 5 else 11
    case Looping => if s.rqAvail then 6 else 12
    case Finishing => 8
    case Handling => 9
    case Rearming => 10
    case Clearing => 13
    case Setting => 14
  }

  function SumRanks<B>(calls: seq<Call<B>>): nat {
    if calls == [] then 0 else SumRanks(calls[..|calls| - 1]) + ClientRank(Last(calls).pc)
  }

  function Measure<D, B>(s: State<D, B>): nat {
    SumRanks(s.calls) + DaemonRank(s)
  }

  lemma {:induction false} SumRanksUpdate<B>(calls: seq<Call<B>>, c: nat, call: Call<B>)
    requires c < |calls|
    ensures SumRanks(calls[c := call]) ==
            SumRanks(calls) - ClientRank(calls[c].pc) + ClientRank(call.pc)
  {
    var n := |calls| - 1;
    if c < n {
      SumRanksUpdate(calls[..n], c, call);
      assert calls[c := call][..n] == calls[..n][c := call];
    } else {
      assert calls[c := call][..n] == calls[..n];
    }
  }

  predicate NoStart(run: seq<Action>) {
    forall i | 0 <= i < |run| :: !run[i].Start?
  }

  /** Every step other than a start decreases the measure over all threads' positions. */
  lemma MeasureDecreases<D, B>(sv: Server<D, B>, s: State<D, B>, a: Action)
    requires Mutex(s) && Handshake(s) && Enabled(s, a) && !a.Start?
    ensures Measure(Next(sv, s, a)) < Measure(s)
  {
    var t := Next(sv, s, a);
    if a.Client? || a.Reject? {
      SumRanksUpdate(s.calls, a.c, t.calls[a.c]);
      ClientRankDrops(sv, s, a);
    }
  }

  lemma ClientRankDrops<D, B>(sv: Server<D, B>, s: State<D, B>, a: Action)
    requires Enabled(s, a) && (a.Client? || a.Reject?)
    ensures var t := Next(sv, s, a);
            && t.calls == s.calls[a.c := t.calls[a.c]]
            && ClientRank(t.calls[a.c].pc) + DaemonRank(t) < ClientRank(s.calls[a.c].pc) + DaemonRank(s)
  {
  }

  /** So a run without a start has no more steps than the measure it begins with. */
  lemma {:induction false} RunBounded<D, B>(sv: Server<D, B>, s: State<D, B>, run: seq<Action>)
    requires Inv(sv, s) && Clean(sv, s, run) && Feasible(sv, s, run) && NoStart(run)
    ensures |run| + Measure(After(sv, s, run)) <= Measure(s)
    decreases |run|
  {
    if run != [] {
      InvStep(sv, s, run[0]);
      MeasureDecreases(sv, s, run[0]);
      RunBounded(sv, Next(sv, s, run[0]), run[1..]);
    }
  }

  // ----- no deadlock while a daemon is up

  predicate AllReturned<D, B>(s: State<D, B>) {
    forall c | 0 <= c < |s.calls| :: s.calls[c].pc.Returned?
  }

  /** While a daemon is in its loop and some call has not returned, some client or the
      daemon can take a step: no request and no completion is lost. */
  lemma NoDeadlock<D, B>(sv: Server<D, B>, s: State<D, B>, c: nat) returns (a: Action)
    requires Inv(sv, s) && InLoop(s.daemon) && c < |s.calls| && !s.calls[c].pc.Returned?
    ensures Enabled(s, a) && !a.Stop? && !a.Start?
  {
    if HasOwner(s) {
      var o := Last(s.grants);
      a := if Enabled(s, Client(o)) then Client(o) else Daemon;
    } else {
      a := Client(c);
    }
  }

  /** Neither a client nor the daemon can take a step. */
  ghost predicate Blocked<D, B>(s: State<D, B>) {
    forall a: Action :: Enabled(s, a) ==> a.Stop? || a.Start?
  }

  /** Every request is served. From any state with a daemon in its loop, whatever happened
      before, a run without a stop is bounded, and when it can go no further every call has
      returned: the calls that entered since with ERROR_STUBFSD_DEADLOCK if the daemon's
      process made them, and otherwise with their reply or with the error in their
      arguments. */
  lemma EveryCallReturns<D, B>(sv: Server<D, B>, s: State<D, B>, run: seq<Action>)
    requires Inv(sv, s) && InLoop(s.daemon) && Feasible(sv, s, run) && Steady(run)
    ensures |run| <= Measure(s)
    ensures var t := After(sv, s, run);
            && |t.calls| == |s.calls|
            && (Blocked(t) ==>
                  && AllReturned(t)
                  && forall c | 0 <= c < |s.calls| && UpCall(s.calls[c], s.pidDaemon) ::
                       UpCall(t.calls[c], s.pidDaemon))
  {
    UpRun(sv, s, run);
    InvRun(sv, s, run);
    RunBounded(sv, s, run);
    var t := After(sv, s, run);
    if !AllReturned(t) {
      var c :| 0 <= c < |t.calls| && !t.calls[c].pc.Returned?;
      var a := NoDeadlock(sv, t, c);
      assert !Blocked(t);
    }
  }

  // ----- draining after a stop

  /** The stopping daemon has posted semRqDone, and no client can still arm it again. */
  ghost predicate Draining<D, B>(s: State<D, B>) {
    && (s.daemon.Requesting? || s.daemon.Unlocking? || s.daemon.Absent?)
    && (forall c | 0 <= c < |s.calls| ::
          && !s.calls[c].pc.Fill? && !s.calls[c].pc.Arm?
          && (s.calls[c].pc.Post? || s.calls[c].pc.Wait? ==> !s.rqDone))
  }

  /** The thread has yet to find out that the daemon is down, or has found out. */
  predicate Doomed<B>(pc: ClientPc<B>) {
    match pc
    case Copy => false
    case Fill => false
    case Arm => false
    case Release(o) => o.NotRunning?
    case Returned(o) => o.NotRunning?
    case _ => true
  }

  /** The stop has completed and every call has returned. */
  predicate Drained<D, B>(s: State<D, B>) {
    s.daemon.Absent? && AllReturned(s)
  }

  lemma DrainStep<D, B>(sv: Server<D, B>, s: State<D, B>, a: Action)
    requires Pids(s) && Draining(s) && Enabled(s, a) && !a.Start?
    ensures Draining(Next(sv, s, a))
    ensures forall c | 0 <= c < |s.calls| && Doomed(s.calls[c].pc) :: Doomed(Next(sv, s, a).calls[c].pc)
  {
    if a.Client? || a.Reject? {
      ClientFrame(sv, s, a);
      assert s.calls[a.c].pid > 0;
    }
  }

  lemma {:induction false} DrainRun<D, B>(sv: Server<D, B>, s: State<D, B>, run: seq<Action>)
    requires Inv(sv, s) && Draining(s) && Feasible(sv, s, run) && NoStart(run)
    ensures var t := After(sv, s, run);
            && Inv(sv, t) && Draining(t) && |t.calls| == |s.calls|
            && (forall c | 0 <= c < |s.calls| && Doomed(s.calls[c].pc) :: Doomed(t.calls[c].pc))
    ensures Clean(sv, s, run)
    decreases |run|
  {
    if run != [] {
      InvStep(sv, s, run[0]);
      DrainStep(sv, s, run[0]);
      StepFrame(sv, s, run[0]);
      DrainRun(sv, Next(sv, s, run[0]), run[1..]);
    }
  }

  /** Until everything has drained, some thread can take a step. */
  lemma DrainLive<D, B>(sv: Server<D, B>, s: State<D, B>) returns (a: Action)
    requires Inv(sv, s) && Draining(s) && !Drained(s)
    ensures Enabled(s, a) && !a.Start?
  {
    if HasOwner(s) {
      var o := Last(s.grants);
      assert Owns(s.calls[o].pc);
      a := Client(o);
    } else if !s.daemon.Absent? {
      a := Daemon;
    } else {
      var c :| 0 <= c < |s.calls| && !s.calls[c].pc.Returned?;
      a := Client(c);
    }
  }

  /** No thread can take a step; only a new daemon could start. */
  ghost predicate Quiescent<D, B>(s: State<D, B>) {
    forall a: Action :: Enabled(s, a) ==> a.Start?
  }

  /** The drain. Once semRqDone is posted and no client can arm it again, every run is
      bounded and, when it can go no further, every thread has returned, the stopper has
      obtained and released semSerialize, and every thread that had not passed its last look
      at pidDaemon has returned ERROR_STUBFSD_DAEMON_NOT_RUNNING. */
  lemma DrainCompletes<D, B>(sv: Server<D, B>, s: State<D, B>, run: seq<Action>)
    requires Inv(sv, s) && Draining(s) && Feasible(sv, s, run) && NoStart(run)
    ensures |run| <= Measure(s)
    ensures var t := After(sv, s, run);
            Quiescent(t) ==>
              && Drained(t) && !t.serialize && |t.calls| == |s.calls|
              && (forall c | 0 <= c < |s.calls| && Doomed(s.calls[c].pc) ::
                    t.calls[c].pc == Returned(NotRunning))
  {
    hide Measure, Clean;
    DrainRun(sv, s, run);
    RunBounded(sv, s, run);
    hide Inv;
    var t := After(sv, s, run);
    if !Drained(t) {
      var a := DrainLive(sv, t);
      assert !Quiescent(t);
    } else {
      forall c | 0 <= c < |s.calls| && Doomed(s.calls[c].pc)
        ensures t.calls[c].pc == Returned(NotRunning)
      {
        assert Doomed(t.calls[c].pc) && t.calls[c].pc.Returned?;
      }
    }
  }

  /** A client has seen the daemon alive for the last time before it arms semRqDone. */
  predicate InWindow<B>(pc: ClientPc<B>) {
    pc.Fill? || pc.Arm?
  }

  /** The call waits for a completion that nobody will post. */
  predicate Stuck<D, B>(s: State<D, B>, c: nat) {
    c < |s.calls| && s.daemon.Requesting? && s.serialize && s.rqDone && s.calls[c].pc.Wait?
  }

  lemma StuckStep<D, B>(sv: Server<D, B>, s: State<D, B>, a: Action, c: nat)
    requires Mutex(s) && Stuck(s, c) && Enabled(s, a) && !a.Start?
    ensures Stuck(Next(sv, s, a), c)
  {
    if a.Client? || a.Reject? {
      assert Owns(s.calls[c].pc);
      assert a.c != c;
    }
  }

  lemma {:induction false} StuckForever<D, B>(sv: Server<D, B>, s: State<D, B>, run: seq<Action>, c: nat)
    requires Inv(sv, s) && Stuck(s, c) && Feasible(sv, s, run) && NoStart(run)
    ensures Stuck(After(sv, s, run), c)
    decreases |run|
  {
    if run != [] {
      StuckStep(sv, s, run[0], c);
      InvStep(sv, s, run[0]);
      StuckForever(sv, Next(sv, s, run[0]), run[1..], c);
    }
  }

  /** A client in the window when semRqDone is posted goes on to arm it and to wait. */
  lemma WindowSticks<D, B>(sv: Server<D, B>, s: State<D, B>, c: nat) returns (run: seq<Action>)
    requires Inv(sv, s) && s.daemon.Requesting? && c < |s.calls| && InWindow(s.calls[c].pc)
    ensures Feasible(sv, s, run) && NoStart(run)
    ensures Stuck(After(sv, s, run), c)
  {
    var t := s;
    run := [];
    if t.calls[c].pc.Fill? {
      run, t := GoToWait(sv, s, run, t, c);
    } else {
      run, t := Go(sv, s, run, t, Client(c));
      run, t := Go(sv, s, run, t, Client(c));
    }
  }

  predicate Stopping(d: DaemonPc) {
    d.Dying? || d.Posting? || d.Requesting? || d.Unlocking? || d.Absent?
  }

  /** After a stop began, a run without a new start has no unclean step. */
  lemma {:induction false} StoppedClean<D, B>(sv: Server<D, B>, s: State<D, B>, run: seq<Action>)
    requires Stopping(s.daemon) && Feasible(sv, s, run) && NoStart(run)
    ensures Clean(sv, s, run) && Stopping(After(sv, s, run).daemon)
    decreases |run|
  {
    if run != [] {
      StoppedClean(sv, Next(sv, s, run[0]), run[1..]);
    }
  }

  /** Some run of the state's own threads goes on until none can take a step. */
  lemma ReachQuiescent<D, B>(sv: Server<D, B>, s: State<D, B>) returns (run: seq<Action>)
    requires Inv(sv, s) && !s.daemon.Clearing? && !s.daemon.Setting?
    ensures Feasible(sv, s, run) && NoStart(run) && Quiescent(After(sv, s, run))
    decreases Measure(s)
  {
    if a: Action :| Enabled(s, a) && !a.Start? {
      InvStep(sv, s, a);
      MeasureDecreases(sv, s, a);
      var rest := ReachQuiescent(sv, Next(sv, s, a));
      run := [a] + rest;
      assert run[1..] == rest;
    } else {
      run := [];
    }
  }

  /** Every run from s that can go no further has drained. */
  ghost predicate AlwaysDrains<D, B>(sv: Server<D, B>, s: State<D, B>) {
    forall run | Feasible(sv, s, run) && NoStart(run) && Quiescent(After(sv, s, run)) ::
      Drained(After(sv, s, run))
  }

  /** A client in the window leads to a run that ends with it blocked for ever. */
  lemma WindowPreventsDrain<D, B>(sv: Server<D, B>, s: State<D, B>, c: nat) returns (run: seq<Action>)
    requires Inv(sv, s) && s.daemon.Requesting? && c < |s.calls| && InWindow(s.calls[c].pc)
    ensures Feasible(sv, s, run) && NoStart(run)
    ensures Quiescent(After(sv, s, run)) && Stuck(After(sv, s, run), c)
  {
    var head := WindowSticks(sv, s, c);
    StoppedClean(sv, s, head);
    InvRun(sv, s, head);
    var rest := ReachQuiescent(sv, After(sv, s, head));
    StuckForever(sv, After(sv, s, head), rest, c);
    Concat(sv, s, head, rest);
    run := head + rest;
  }

  /** Exactly when a stop wakes everyone: the step that posts semRqDone leads to a state from
      which every run drains if and only if no client is in the window at that moment. */
  lemma DrainsExactly<D, B>(sv: Server<D, B>, s: State<D, B>)
    requires Inv(sv, s) && s.daemon.Posting?
    ensures AlwaysDrains(sv, Next(sv, s, Daemon)) <==>
            forall c | 0 <= c < |s.calls| :: !InWindow(s.calls[c].pc)
  {
    var t := Next(sv, s, Daemon);
    InvStep(sv, s, Daemon);
    assert t.calls == s.calls;
    if c :| 0 <= c < |s.calls| && InWindow(s.calls[c].pc) {
      var run := WindowPreventsDrain(sv, t, c);
      assert !Drained(After(sv, t, run));
    } else {
      assert Draining(t);
      forall run | Feasible(sv, t, run) && NoStart(run) && Quiescent(After(sv, t, run))
        ensures Drained(After(sv, t, run))
      {
        DrainCompletes(sv, t, run);
      }
    }
  }

  lemma {:induction false} Concat<D, B>(sv: Server<D, B>, s: State<D, B>, run: seq<Action>, rest: seq<Action>)
    requires Feasible(sv, s, run) && Feasible(sv, After(sv, s, run), rest)
    ensures Feasible(sv, s, run + rest)
    ensures After(sv, s, run + rest) == After(sv, After(sv, s, run), rest)
    decreases |run|
  {
    if run == [] {
      assert run + rest == rest;
    } else {
      Concat(sv, Next(sv, s, run[0]), run[1..], rest);
      assert (run + rest)[1..] == run[1..] + rest;
    }
  }

  /** Extends a clean run by one step. */
  lemma GoClean<D, B>(sv: Server<D, B>, s: State<D, B>, run: seq<Action>, t: State<D, B>, a: Action)
    returns (run': seq<Action>, t': State<D, B>)
    requires Clean(sv, s, run) && Feasible(sv, s, run) && After(sv, s, run) == t
    requires Enabled(t, a) && CleanStep(t, a)
    ensures Clean(sv, s, run') && Feasible(sv, s, run') && After(sv, s, run') == t' == Next(sv, t, a)
  {
    Extend(sv, s, run, a);
    ExtendClean(sv, s, run, a);
    run', t' := run + [a], Next(sv, t, a);
  }

  /** Such a stop occurs: a daemon starts, with nobody about, a client takes its second look at
      pidDaemon, and the daemon stops. From there, some run leaves a thread blocked for ever. */
  lemma StopCanStrand<D, B>(sv: Server<D, B>, s: State<D, B>) returns (run: seq<Action>)
    requires Init(sv, s) && |s.calls| >= 1 && s.calls[0].pid != 1
    ensures Clean(sv, s, run) && Feasible(sv, s, run)
    ensures var t := After(sv, s, run); t.daemon.Posting? && !AlwaysDrains(sv, Next(sv, t, Daemon))
  {
    hide AlwaysDrains, Clean, Feasible, After, Inv;
    var t := s;
    run := [];
    EmptyRun(sv, s);
    run, t := GoClean(sv, s, run, t, Start(1));
    run, t := GoClean(sv, s, run, t, Daemon);
    run, t := GoClean(sv, s, run, t, Daemon);
    run, t := GoClean(sv, s, run, t, Client(0));
    run, t := GoClean(sv, s, run, t, Client(0));
    run, t := GoClean(sv, s, run, t, Client(0));
    run, t := GoClean(sv, s, run, t, Client(0));
    assert t.calls[0].pc.Fill?;
    run, t := GoClean(sv, s, run, t, Stop);
    run, t := GoClean(sv, s, run, t, Daemon);
    InitInv(sv, s);
    InvRun(sv, s, run);
    DrainsExactly(sv, t);
    assert InWindow(t.calls[0].pc);
  }

  lemma EmptyRun<D, B>(sv: Server<D, B>, s: State<D, B>)
    ensures Clean(sv, s, []) && Feasible(sv, s, []) && After(sv, s, []) == s
  {
  }
}
