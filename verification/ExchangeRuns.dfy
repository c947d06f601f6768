/** Properties of whole runs of the exchange: every reply belongs to its request, the
    replies are those of a sequential daemon, and a restart forgets what was posted before. */
module ExchangeRuns {
  import opened Exchange
  import opened ExchangeInvariant

  lemma InitInv<D, B>(sv: Server<D, B>, s: State<D, B>)
    requires Init(sv, s)
    ensures Inv(sv, s)
  {
  }

  /** Over every run with clean starts, any number of clients, stops and restarts included,
      the invariant holds. */
  lemma {:induction false} InvRun<D, B>(sv: Server<D, B>, s: State<D, B>, run: seq<Action>)
    requires Inv(sv, s) && Clean(sv, s, run)
    ensures Feasible(sv, s, run) && Inv(sv, After(sv, s, run))
    decreases |run|
  {
    if run != [] {
      InvStep(sv, s, run[0]);
      InvRun(sv, Next(sv, s, run[0]), run[1..]);
    }
  }

  /** And over no other run: the invariant holds all along a feasible run if and only if each
      of its starts ends with semSerialize clear. */
  lemma {:induction false} InvExactly<D, B>(sv: Server<D, B>, s: State<D, B>, run: seq<Action>)
    requires Inv(sv, s) && Feasible(sv, s, run)
    ensures forall k: nat | k <= |run| :: Feasible(sv, s, run[..k])
    ensures (forall k: nat | k <= |run| :: Inv(sv, After(sv, s, run[..k]))) <==> Clean(sv, s, run)
    decreases |run|
  {
    hide Inv;
    Prefixes(sv, s, run);
    if run == [] {
      assert forall k: nat | k <= |run| :: run[..k] == [];
    } else {
      var a, rest := run[0], run[1..];
      var t := Next(sv, s, a);
      Prefixes(sv, t, rest);
      forall k: nat | k <= |rest|
        ensures After(sv, s, run[..k + 1]) == After(sv, t, rest[..k])
      {
        assert run[..k + 1][1..] == rest[..k];
      }
      assert After(sv, s, run[..0]) == s;
      if CleanStep(s, a) {
        InvStep(sv, s, a);
        InvExactly(sv, t, rest);
        assert forall k: nat | 1 <= k <= |run| :: After(sv, s, run[..k]) == After(sv, t, rest[..k - 1]);
        if forall k: nat | k <= |run| :: Inv(sv, After(sv, s, run[..k])) {
          assert forall k: nat | k <= |rest| :: Inv(sv, After(sv, t, rest[..k]));
        }
      } else {
        StartEstablishes(sv, s);
        assert After(sv, s, run[..1]) == t by {
          assert run[..1][1..] == [];
        }
      }
    }
  }

  lemma {:induction false} Prefixes<D, B>(sv: Server<D, B>, s: State<D, B>, run: seq<Action>)
    requires Feasible(sv, s, run)
    ensures forall k: nat | k <= |run| :: Feasible(sv, s, run[..k])
    decreases |run|
  {
    if run != [] {
      Prefixes(sv, Next(sv, s, run[0]), run[1..]);
      forall k: nat | k <= |run|
        ensures Feasible(sv, s, run[..k])
      {
        if k > 0 {
          assert run[..k][1..] == run[1..][..k - 1];
        }
      }
    }
  }

  /** Over a clean run, in every state at most one thread is between acquiring and clearing
      semSerialize, the stopping daemon included. */
  lemma MutualExclusion<D, B>(sv: Server<D, B>, s: State<D, B>, run: seq<Action>, c: nat, d: nat)
    requires Init(sv, s) && Clean(sv, s, run)
    requires c < |s.calls| && d < |s.calls| && c != d
    ensures Feasible(sv, s, run)
    ensures var t := After(sv, s, run);
            && |t.calls| == |s.calls|
            && !(Owns(t.calls[c].pc) && Owns(t.calls[d].pc))
            && !(Owns(t.calls[c].pc) && t.daemon.Unlocking?)
            && (Owns(t.calls[c].pc) ==> t.serialize)
  {
    InitInv(sv, s);
    InvRun(sv, s, run);
    RunFrame(sv, s, run);
  }

  /** A step keeps every call's identity and only appends to the log. */
  lemma StepFrame<D, B>(sv: Server<D, B>, s: State<D, B>, a: Action)
    requires Enabled(s, a)
    ensures var t := Next(sv, s, a);
            && |t.calls| == |s.calls| && s.log <= t.log && s.grants <= t.grants
            && (forall c | 0 <= c < |s.calls| ::
                  t.calls[c].pid == s.calls[c].pid && t.calls[c].rq == s.calls[c].rq)
            && (forall c | 0 <= c < |s.calls| && s.calls[c].pc.Returned? :: t.calls[c] == s.calls[c])
  {
    if a.Client? || a.Reject? {
      ClientFrame(sv, s, a);
    }
  }

  lemma {:induction false} RunFrame<D, B>(sv: Server<D, B>, s: State<D, B>, run: seq<Action>)
    requires Feasible(sv, s, run)
    ensures var t := After(sv, s, run);
            && |t.calls| == |s.calls| && s.log <= t.log && s.grants <= t.grants
            && (forall c | 0 <= c < |s.calls| ::
                  t.calls[c].pid == s.calls[c].pid && t.calls[c].rq == s.calls[c].rq)
            && (forall c | 0 <= c < |s.calls| && s.calls[c].pc.Returned? :: t.calls[c] == s.calls[c])
    decreases |run|
  {
    if run != [] {
      StepFrame(sv, s, run[0]);
      RunFrame(sv, Next(sv, s, run[0]), run[1..]);
    }
  }

  /** The replies in the log are those of a sequential run of the daemon. */
  ghost predicate Faithful<D, B>(sv: Server<D, B>, log: seq<Event<B>>) {
    forall j | 0 <= j < |log| && log[j].Handled? ::
      log[j].reply == sv.handle(ServerData(sv, log[..j]), log[j].rq).1
  }

  /** Linearizability. In every clean run, whatever the interleaving and however often a daemon
      stops and another starts: a call that returns with a reply was handled, with the
      request it put into the buffer and exactly that reply; every logged request is that of
      its caller; the replies are those of a sequential run of the daemon over the logged
      requests; and the requests are logged in the order in which semSerialize was granted,
      each call at most once. */
  lemma Linearizable<D, B>(sv: Server<D, B>, s: State<D, B>, run: seq<Action>, c: nat)
    requires Init(sv, s) && Clean(sv, s, run) && c < |s.calls|
    ensures Feasible(sv, s, run) && |After(sv, s, run).calls| == |s.calls|
    ensures var t := After(sv, s, run);
            && (forall b :: t.calls[c].pc == Returned(Replied(b)) ==> Handled(c, s.calls[c].rq, b) in t.log)
            && (forall j | 0 <= j < |t.log| && t.log[j].Handled? ::
                  t.log[j].caller < |s.calls| && t.log[j].rq == s.calls[t.log[j].caller].rq)
            && Faithful(sv, t.log)
            && LogCalls(t.log) == Restrict(t.grants, Served(t.log))
            && (forall i, j | 0 <= i < j < |t.log| && t.log[i].Handled? && t.log[j].Handled? ::
                  t.log[i].caller != t.log[j].caller)
  {
    InitInv(sv, s);
    InvRun(sv, s, run);
    RunFrame(sv, s, run);
    var t := After(sv, s, run);
    assert Truthful(t.log, c, t.calls[c]);
  }

  /** The order of the log respects real time: a call that had returned before another one
      was granted the buffer is handled before it. */
  lemma RealTimeOrder<D, B>(sv: Server<D, B>, s: State<D, B>, run: seq<Action>,
                            c: nat, d: nat, i: nat, j: nat)
    requires Inv(sv, s) && Clean(sv, s, run) && c < |s.calls| && d < |s.calls|
    requires s.calls[c].pc.Returned? && Early(s.calls[d].pc)
    requires Feasible(sv, s, run)
    requires var log := After(sv, s, run).log;
             && i < |log| && log[i].Handled? && log[i].caller == c
             && j < |log| && log[j].Handled? && log[j].caller == d
    ensures i < j
  {
    InvRun(sv, s, run);
    RunFrame(sv, s, run);
    var t := After(sv, s, run);
    SettledRun(sv, s, run, c);
    assert t.log[i] in t.log && c in Served(t.log);
    var e :| e in s.log && e.Handled? && e.caller == c;
    var k :| 0 <= k < |s.log| && s.log[k] == e;
    assert t.log[k] == s.log[k];
    assert i == k;
    assert d !in s.grants;
    assert d !in Served(s.log);
    forall m | 0 <= m < |s.log| && s.log[m].Handled?
      ensures s.log[m].caller != d
    {
      assert s.log[m] in s.log;
    }
    assert j >= |s.log| by {
      assert forall m | 0 <= m < |s.log| :: t.log[m] == s.log[m];
    }
  }

  // ----- runs without a stop

  /** The call has seen only the daemon pid, and that one up: it is still to be told
      ERROR_STUBFSD_DEADLOCK if that process makes it, and otherwise is on its way to a reply
      or to an error in its arguments, or has its outcome. */
  ghost predicate UpCall<B>(call: Call<B>, pid: nat) {
    match call.pc
    case Entry => true
    case PidCheck => true
    case Dead => false
    case Release(o) => call.pid != pid && (o.Replied? || o.Rejected?)
    case Returned(o) => if call.pid == pid then o.Deadlock? else o.Replied? || o.Rejected?
    case _ => call.pid != pid
  }

  /** Neither a stop nor a start occurs. */
  predicate Steady(run: seq<Action>) {
    forall i | 0 <= i < |run| :: !run[i].Stop? && !run[i].Start?
  }

  lemma UpStep<D, B>(sv: Server<D, B>, s: State<D, B>, a: Action)
    requires InLoop(s.daemon) && s.pidDaemon != 0 && Enabled(s, a) && !a.Stop? && !a.Start?
    ensures var t := Next(sv, s, a);
            && InLoop(t.daemon) && t.pidDaemon == s.pidDaemon && |t.calls| == |s.calls|
            && forall c | 0 <= c < |s.calls| && UpCall(s.calls[c], s.pidDaemon) ::
                 UpCall(t.calls[c], s.pidDaemon)
  {
    var t := Next(sv, s, a);
    if a.Client? || a.Reject? {
      ClientFrame(sv, s, a);
    } else {
      assert t.calls == s.calls;
    }
  }

  /** While no stop occurs, the daemon stays up, and every call that enters returns
      ERROR_STUBFSD_DEADLOCK exactly when the daemon's own process makes it, and otherwise a
      reply or the error in its arguments; whatever became of other calls before. */
  lemma {:induction false} UpRun<D, B>(sv: Server<D, B>, s: State<D, B>, run: seq<Action>)
    requires InLoop(s.daemon) && s.pidDaemon != 0 && Feasible(sv, s, run) && Steady(run)
    ensures var t := After(sv, s, run);
            && InLoop(t.daemon) && t.pidDaemon == s.pidDaemon && |t.calls| == |s.calls|
            && forall c | 0 <= c < |s.calls| && UpCall(s.calls[c], s.pidDaemon) ::
                 UpCall(t.calls[c], s.pidDaemon)
    ensures Clean(sv, s, run)
    decreases |run|
  {
    if run != [] {
      UpStep(sv, s, run[0]);
      UpRun(sv, Next(sv, s, run[0]), run[1..]);
    }
  }

  // ----- starts

  /** The last step of a start establishes the invariant exactly when it finds semSerialize
      clear: the driver writes pidDaemon before it sets up its semaphores, and a client may
      slip in between. */
  lemma StartEstablishes<D, B>(sv: Server<D, B>, s: State<D, B>)
    requires Inv(sv, s) && s.daemon.Clearing?
    ensures Inv(sv, Next(sv, s, Daemon)) <==> !s.serialize
  {
    if !s.serialize {
      InvStep(sv, s, Daemon);
    } else {
      var o := Last(s.grants);
      assert Owns(s.calls[o].pc);
      var t := Next(sv, s, Daemon);
      assert t.calls == s.calls && !HasOwner(t);
      assert !Mutex(t);
    }
  }

  /** After a history of clean starts, a start that ends cleanly leaves the exchange as new: the
      daemon is in its initial state and about to wait, no request is posted, and nobody
      holds semSerialize. */
  lemma Restart<D, B>(sv: Server<D, B>, s: State<D, B>, run: seq<Action>)
    requires Init(sv, s) && Clean(sv, s, run) && Feasible(sv, s, run)
    requires var u := After(sv, s, run); u.daemon.Clearing? && !u.serialize
    ensures var t := Next(sv, After(sv, s, run), Daemon);
            && Inv(sv, t) && t.daemon.Looping? && Idle(t) && !t.serialize
            && t.data == sv.init && t.pidDaemon != 0
            && (forall c | 0 <= c < |t.calls| :: !Owns(t.calls[c].pc))
  {
    InitInv(sv, s);
    InvRun(sv, s, run);
    InvStep(sv, After(sv, s, run), Daemon);
  }

  /** The call has returned, or holds semSerialize while no daemon is in its loop. */
  ghost predicate Settled<D, B>(s: State<D, B>, c: nat) {
    c < |s.calls| &&
    (s.calls[c].pc.Returned? ||
     (Owns(s.calls[c].pc) && (s.daemon.Absent? || s.daemon.Setting? || s.daemon.Clearing?)))
  }

  lemma SettledStep<D, B>(sv: Server<D, B>, s: State<D, B>, a: Action, c: nat)
    requires Inv(sv, s) && Enabled(s, a) && CleanStep(s, a) && Settled(s, c)
    ensures Settled(Next(sv, s, a), c)
    ensures c in Served(Next(sv, s, a).log) <==> c in Served(s.log)
  {
    var t := Next(sv, s, a);
    if a.Client? || a.Reject? {
      ClientFrame(sv, s, a);
    } else if t.log != s.log {
      if s.daemon.Handling? {
        HandlesOwner(sv, s);
      }
      ServedAppend(s.log, Last(t.log));
    }
  }

  lemma {:induction false} SettledRun<D, B>(sv: Server<D, B>, s: State<D, B>, run: seq<Action>, c: nat)
    requires Inv(sv, s) && Clean(sv, s, run) && Feasible(sv, s, run) && Settled(s, c)
    ensures c in Served(After(sv, s, run).log) <==> c in Served(s.log)
    decreases |run|
  {
    if run != [] {
      InvStep(sv, s, run[0]);
      SettledStep(sv, s, run[0], c);
      SettledRun(sv, Next(sv, s, run[0]), run[1..], c);
    }
  }

  /** A request posted to a daemon that has stopped is never handled by a later one: no call
      that was granted the buffer before the stop completed is handled after it. */
  lemma NotRedelivered<D, B>(sv: Server<D, B>, s: State<D, B>, run: seq<Action>, c: nat)
    requires Inv(sv, s) && s.daemon.Absent? && c in s.grants
    requires Clean(sv, s, run) && Feasible(sv, s, run)
    ensures c in Served(After(sv, s, run).log) <==> c in Served(s.log)
  {
    SettledRun(sv, s, run, c);
  }

  // ----- what a start that does not end cleanly can do

  /** Extends the run that leads from s to t by one step. */
  lemma Go<D, B>(sv: Server<D, B>, s: State<D, B>, run: seq<Action>, t: State<D, B>, a: Action)
    returns (run': seq<Action>, t': State<D, B>)
    requires Feasible(sv, s, run) && After(sv, s, run) == t && Enabled(t, a)
    ensures run' == run + [a] && t' == Next(sv, t, a)
    ensures Feasible(sv, s, run') && After(sv, s, run') == t'
  {
    Extend(sv, s, run, a);
    run', t' := run + [a], Next(sv, t, a);
  }

  /** A client that finds a daemon and a clear semSerialize gets to fill the buffer. */
  lemma GoToFill<D, B>(sv: Server<D, B>, s: State<D, B>, run: seq<Action>, t: State<D, B>, c: nat)
    returns (run': seq<Action>, t': State<D, B>)
    requires Feasible(sv, s, run) && After(sv, s, run) == t
    requires c < |t.calls| && t.calls[c].pc.Entry? && !t.serialize
    requires t.pidDaemon != 0 && t.calls[c].pid != t.pidDaemon
    ensures run' == run + [Client(c), Client(c), Client(c), Client(c)]
    ensures Feasible(sv, s, run') && After(sv, s, run') == t'
    ensures t' == t.(serialize := true, grants := t.grants + [c],
                     calls := t.calls[c := t.calls[c].(pc := Fill)])
  {
    run', t' := Go(sv, s, run, t, Client(c));
    run', t' := Go(sv, s, run', t', Client(c));
    run', t' := Go(sv, s, run', t', Client(c));
    run', t' := Go(sv, s, run', t', Client(c));
  }

  /** A client that fills the buffer gets to post its request. */
  lemma GoToWait<D, B>(sv: Server<D, B>, s: State<D, B>, run: seq<Action>, t: State<D, B>, c: nat)
    returns (run': seq<Action>, t': State<D, B>)
    requires Feasible(sv, s, run) && After(sv, s, run) == t
    requires c < |t.calls| && t.calls[c].pc.Fill?
    ensures run' == run + [Client(c), Client(c), Client(c)]
    ensures Feasible(sv, s, run') && After(sv, s, run') == t'
    ensures t' == t.(rqDone := true, rqAvail := false, buf := t.calls[c].rq,
                     calls := t.calls[c := t.calls[c].(pc := Wait)])
  {
    run', t' := Go(sv, s, run, t, Client(c));
    run', t' := Go(sv, s, run', t', Client(c));
    run', t' := Go(sv, s, run', t', Client(c));
  }

  /** A client that acquires semSerialize after the driver wrote pidDaemon and before it
      cleared the semaphore ends up inside together with the next one. */
  lemma StartCanAdmitTwo<D, B>(sv: Server<D, B>, s: State<D, B>) returns (run: seq<Action>)
    requires Init(sv, s) && |s.calls| >= 2 && s.calls[0].pid != 1 && s.calls[1].pid != 1
    ensures Feasible(sv, s, run)
    ensures var t := After(sv, s, run);
            |t.calls| == |s.calls| && t.calls[0].pc.Fill? && t.calls[1].pc.Fill?
  {
    var t := s;
    run := [];
    run, t := Go(sv, s, run, t, Start(1));
    run, t := GoToFill(sv, s, run, t, 0);
    run, t := Go(sv, s, run, t, Daemon);
    run, t := Go(sv, s, run, t, Daemon);
    run, t := GoToFill(sv, s, run, t, 1);
  }

  /** And this is possible whenever a start finds semSerialize set: any call of another process
      that has yet to enter can join the one that is inside. */
  lemma StartAdmitsTwo<D, B>(sv: Server<D, B>, s: State<D, B>, c: nat) returns (run: seq<Action>)
    requires Inv(sv, s) && s.daemon.Clearing? && s.serialize
    requires c < |s.calls| && s.calls[c].pc.Entry? && s.calls[c].pid != s.pidDaemon
    ensures Feasible(sv, s, run) && run != [] && run[0] == Daemon
    ensures var t := After(sv, s, run);
            && |t.calls| == |s.calls| && Owns(t.calls[c].pc)
            && exists o :: 0 <= o < |t.calls| && o != c && Owns(t.calls[o].pc)
  {
    var o := Last(s.grants);
    assert HasOwner(s) && Owns(s.calls[o].pc) && o != c;
    var t := s;
    run := [];
    run, t := Go(sv, s, run, t, Daemon);
    assert t.calls[o] == s.calls[o];
    run, t := GoToFill(sv, s, run, t, c);
    assert t.calls[o] == s.calls[o];
  }

  /** A request posted before the driver set semRqAvail is lost: the client waits for a reply
      and the daemon waits for a request. */
  lemma StartCanLoseRequest<D, B>(sv: Server<D, B>, s: State<D, B>) returns (run: seq<Action>)
    requires Init(sv, s) && |s.calls| >= 1 && s.calls[0].pid != 1
    ensures Feasible(sv, s, run)
    ensures var t := After(sv, s, run);
            && |t.calls| == |s.calls| && t.calls[0].pc.Wait? && t.daemon.Waiting?
            && !Enabled(t, Client(0)) && !Enabled(t, Daemon) && 0 !in Served(t.log)
  {
    var t := s;
    run := [];
    run, t := Go(sv, s, run, t, Start(1));
    run, t := GoToFill(sv, s, run, t, 0);
    run, t := GoToWait(sv, s, run, t, 0);
    run, t := Go(sv, s, run, t, Daemon);
    run, t := Go(sv, s, run, t, Daemon);
    run, t := Go(sv, s, run, t, Daemon);
  }
}
