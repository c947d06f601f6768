/** The driver and the daemon as they run: variables and semaphores changed in place, one step
    of one thread at a time, in whatever order the scheduler picks. */
module Driver {
  import opened Exchange
  import opened ExchangeInvariant

  class Exchanger<!D, !B> {
    const sv: Server<D, B>
    var pidDaemon: nat
    var semSerialize: bool
    var semRqAvail: bool
    var semRqDone: bool
    var buf: B
    var calls: seq<Call<B>>
    var daemon: DaemonPc
    var data: D
    ghost var grants: seq<nat>
    ghost var log: seq<Event<B>>

    ghost function Snapshot(): State<D, B>
      reads this
    {
      State(pidDaemon, semSerialize, semRqAvail, semRqDone, buf, calls, daemon, data, grants, log)
    }

    /** The driver is loaded; the calls still to come are given. */
    constructor (sv: Server<D, B>, buf: B, calls: seq<Call<B>>)
      requires forall c | 0 <= c < |calls| :: calls[c].pc.Entry? && calls[c].pid > 0
      ensures this.sv == sv && Init(sv, Snapshot()) && Inv(sv, Snapshot()) && this.calls == calls
    {
      this.sv, this.buf, this.calls := sv, buf, calls;
      pidDaemon, semSerialize, semRqAvail, semRqDone := 0, false, false, false;
      daemon, data, grants, log := Absent, sv.init, [], [];
    }

    /** The thread of call c goes on to pc. */
    method GoTo(c: nat, pc: ClientPc<B>)
      requires c < |calls|
      modifies this`calls
      ensures calls == old(calls)[c := old(calls)[c].(pc := pc)]
    {
      calls := calls[c := calls[c].(pc := pc)];
    }

    /** The next statement of an entry point: requestExchangeXS, the copying of arguments,
        signalDaemonAndWait, the copying of results, releaseExchangeXS. */
    method StepClient(c: nat)
      requires Enabled(Snapshot(), Client(c))
      modifies this
      ensures Snapshot() == Next(sv, old(Snapshot()), Client(c))
    {
      match calls[c].pc {
        case Entry =>
          GoTo(c, if pidDaemon == 0 then Returned(NotRunning) else PidCheck);
        case PidCheck =>
          GoTo(c, if calls[c].pid == pidDaemon then Returned(Deadlock) else Request);
        case Request =>
          semSerialize := true;
          grants := grants + [c];
          GoTo(c, Recheck);
        case Recheck =>
          GoTo(c, if pidDaemon == 0 then Dead else Fill);
        case Dead =>
          semSerialize := false;
          GoTo(c, Returned(NotRunning));
        case Fill =>
          buf := calls[c].rq;
          GoTo(c, Arm);
        case Arm =>
          semRqDone := true;
          GoTo(c, Post);
        case Post =>
          semRqAvail := false;
          GoTo(c, Wait);
        case Wait =>
          GoTo(c, Check);
        case Check =>
          GoTo(c, if pidDaemon == 0 then Release(NotRunning) else Copy);
        case Copy =>
          GoTo(c, Release(Replied(buf)));
        case Release(outcome) =>
          semSerialize := false;
          GoTo(c, Returned(outcome));
      }
    }

    /** A client finds an argument unusable, before or after the daemon's answer. */
    method RejectClient(c: nat)
      requires Enabled(Snapshot(), Reject(c))
      modifies this
      ensures Snapshot() == Next(sv, old(Snapshot()), Reject(c))
    {
      if calls[c].pc.Fill? {
        buf := calls[c].rq;
      }
      GoTo(c, Release(Rejected));
    }

    /** The next statement of the daemon's thread: daemonStarted, the loop of runDaemon with
        GET_REQUEST and DONE_REQUEST, daemonStopped. */
    method StepDaemon()
      requires Enabled(Snapshot(), Daemon)
      modifies this
      ensures Snapshot() == Next(sv, old(Snapshot()), Daemon)
    {
      match daemon {
        case Setting =>
          semRqAvail, daemon := true, Clearing;
        case Clearing =>
          semSerialize, daemon := false, Looping;
        case Looping =>
          daemon := Waiting;
        case Waiting =>
          daemon := Rearming;
        case Rearming =>
          semRqAvail, daemon := true, Handling;
        case Handling =>
          ghost var rq := buf;
          var (d, reply) := sv.handle(data, buf);
          data, buf, daemon := d, reply, Finishing;
          log := log + [Handled(if grants == [] then 0 else Last(grants), rq, reply)];
        case Finishing =>
          semRqDone, daemon := false, Looping;
        case Dying =>
          pidDaemon, daemon := 0, Posting;
        case Posting =>
          semRqDone, daemon := false, Requesting;
        case Requesting =>
          semSerialize, daemon := true, Unlocking;
        case Unlocking =>
          semSerialize, daemon := false, Absent;
      }
    }

    method StartDaemon(pid: nat)
      requires Enabled(Snapshot(), Start(pid))
      modifies this
      ensures Snapshot() == Next(sv, old(Snapshot()), Start(pid))
    {
      pidDaemon, data, daemon := pid, sv.init, Setting;
      log := log + [Started];
    }

    method StopDaemon()
      requires Enabled(Snapshot(), Stop)
      modifies this
      ensures Snapshot() == Next(sv, old(Snapshot()), Stop)
    {
      daemon := Dying;
    }

    method Step(a: Action)
      requires Enabled(Snapshot(), a)
      modifies this
      ensures Snapshot() == Next(sv, old(Snapshot()), a)
    {
      match a {
        case Client(c) => StepClient(c);
        case Reject(c) => RejectClient(c);
        case Daemon => StepDaemon();
        case Start(pid) => StartDaemon(pid);
        case Stop => StopDaemon();
      }
    }

    /** Lets the threads run in the order of the schedule, and stops at the first step that is
        blocked or would end a start with semSerialize set. What was run is a clean run of the
        exchange, so every theorem about clean runs is about these variables; in particular,
        the invariant holds where it stops. */
    method Run(schedule: seq<Action>) returns (taken: nat)
      requires Inv(sv, Snapshot())
      modifies this
      ensures taken <= |schedule|
      ensures Clean(sv, old(Snapshot()), schedule[..taken]) && Feasible(sv, old(Snapshot()), schedule[..taken])
      ensures Snapshot() == After(sv, old(Snapshot()), schedule[..taken]) && Inv(sv, Snapshot())
      ensures taken < |schedule| ==>
                !Enabled(Snapshot(), schedule[taken]) || !CleanStep(Snapshot(), schedule[taken])
    {
      hide Inv, Next, CleanStep;
      ghost var start := Snapshot();
      taken := 0;
      while taken < |schedule| && CanTake(schedule[taken])
        invariant taken <= |schedule|
        invariant Clean(sv, start, schedule[..taken]) && Feasible(sv, start, schedule[..taken])
        invariant Snapshot() == After(sv, start, schedule[..taken]) && Inv(sv, Snapshot())
      {
        var a := schedule[taken];
        Extend(sv, start, schedule[..taken], a);
        ExtendClean(sv, start, schedule[..taken], a);
        InvStep(sv, Snapshot(), a);
        assert schedule[..taken + 1] == schedule[..taken] + [a];
        Step(a);
        taken := taken + 1;
      }
    }

    /** The guard of a step, on the variables themselves. */
    predicate CanTake(a: Action)
      reads this
      ensures CanTake(a) <==> Enabled(Snapshot(), a) && CleanStep(Snapshot(), a)
    {
      match a
      case Client(c) =>
        c < |calls| &&
        (match calls[c].pc
         case Request => !semSerialize
         case Wait => !semRqDone
         case Returned(_) => false
         case _ => true)
      case Reject(c) => c < |calls| && (calls[c].pc.Fill? || calls[c].pc.Copy?)
      case Daemon =>
        (match daemon
         case Absent => false
         case Waiting => !semRqAvail
         case Requesting => !semSerialize
         case Clearing => !semSerialize
         case _ => true)
      case Start(pid) => daemon.Absent? && pidDaemon == 0 && pid > 0
      case Stop => InLoop(daemon)
    }
  }
}
