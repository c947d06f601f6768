/** What every step of the exchange keeps: mutual exclusion on the buffer, the handshake on
    the two event semaphores, and the agreement between the log and the daemon. */
module ExchangeInvariant {
  import opened Exchange

  /** The thread is between acquiring and clearing semSerialize. */
  predicate Owns<B>(pc: ClientPc<B>) {
    !(pc.Entry? || pc.PidCheck? || pc.Request? || pc.Returned?)
  }

  /** The thread has not acquired semSerialize yet. */
  predicate Early<B>(pc: ClientPc<B>) {
    pc.Entry? || pc.PidCheck? || pc.Request?
  }

  /** A client, and not the stopping daemon, holds semSerialize. */
  predicate HasOwner<D, B>(s: State<D, B>) {
    s.serialize && !s.daemon.Unlocking?
  }

  /** The calls that some daemon has handled. */
  ghost function Served<B>(log: seq<Event<B>>): set<nat> {
    set e | e in log && e.Handled? :: e.caller
  }

  /** The handled calls, in the order they were handled. */
  function LogCalls<B>(log: seq<Event<B>>): seq<nat> {
    if log == [] then []
    else LogCalls(log[..|log| - 1]) + (if Last(log).Handled? then [Last(log).caller] else [])
  }

  /** The elements of g that lie in keep, in the order of g. */
  function Restrict(g: seq<nat>, keep: set<nat>): seq<nat> {
    if g == [] then []
    else Restrict(g[..|g| - 1], keep) + (if Last(g) in keep then [Last(g)] else [])
  }

  /** The private data of the daemon after a sequential run over the requests logged since
      the last start. */
  function ServerData<D, B>(sv: Server<D, B>, log: seq<Event<B>>): D {
    if log == [] then sv.init
    else if Last(log).Started? then sv.init
    else sv.handle(ServerData(sv, log[..|log| - 1]), Last(log).rq).0
  }

  /** At most one thread holds semSerialize, the semaphore is set exactly while one does,
      and a client that holds it is the one it was granted to last. */
  ghost predicate Mutex<D, B>(s: State<D, B>) {
    && (forall c | 0 <= c < |s.calls| && Owns(s.calls[c].pc) ::
          HasOwner(s) && s.grants != [] && Last(s.grants) == c)
    && (HasOwner(s) ==>
          s.grants != [] && Last(s.grants) < |s.calls| && Owns(s.calls[Last(s.grants)].pc))
    && (s.daemon.Unlocking? ==> s.serialize)
  }

  /** pidDaemon is zero exactly while no daemon is up. */
  ghost predicate Pids<D, B>(s: State<D, B>) {
    && (s.pidDaemon == 0 <==>
        s.daemon.Absent? || s.daemon.Posting? || s.daemon.Requesting? || s.daemon.Unlocking?)
    && (forall c | 0 <= c < |s.calls| :: s.calls[c].pid > 0)
  }

  /** The buffer holds the request of c, which no daemon has handled. */
  ghost predicate Pending<D, B>(s: State<D, B>, c: nat)
    requires c < |s.calls|
  {
    s.buf == s.calls[c].rq && c !in Served(s.log)
  }

  /** The buffer holds the reply to the request of c, which was handled last. */
  ghost predicate Answered<D, B>(s: State<D, B>, c: nat)
    requires c < |s.calls|
  {
    s.log != [] && Last(s.log) == Handled(c, s.calls[c].rq, s.buf)
  }

  /** The daemon waits, or is about to wait, for a request, and none is posted. */
  predicate Idle<D, B>(s: State<D, B>) {
    (s.daemon.Looping? || s.daemon.Waiting?) && s.rqAvail
  }

  /** Where the daemon can be while the owner o of semSerialize waits for its reply. */
  ghost predicate WaitPhase<D, B>(s: State<D, B>, o: nat)
    requires o < |s.calls|
  {
    match s.daemon
    case Looping => if s.rqAvail then !s.rqDone && Answered(s, o) else s.rqDone && Pending(s, o)
    case Waiting => if s.rqAvail then !s.rqDone && Answered(s, o) else s.rqDone && Pending(s, o)
    case Rearming => !s.rqAvail && s.rqDone && Pending(s, o)
    case Handling => s.rqAvail && s.rqDone && Pending(s, o)
    case Finishing => s.rqAvail && s.rqDone && Answered(s, o)
    case Dying => s.rqDone || Answered(s, o)
    case Setting => s.rqDone && Pending(s, o)
    case Clearing => s.rqDone && Pending(s, o)
    case Posting => true
    case Requesting => true
    case Absent => false
    case Unlocking => false
  }

  /** Where the daemon can be, and what the buffer holds, given where the owner o is. */
  ghost predicate OwnerPhase<D, B>(s: State<D, B>, o: nat)
    requires o < |s.calls|
  {
    && (InLoop(s.daemon) && !s.calls[o].pc.Wait? ==> Idle(s))
    && (s.daemon.Clearing? && !s.rqAvail ==> s.calls[o].pc.Wait?)
    && match s.calls[o].pc
       case Recheck => o !in Served(s.log)
       case Dead => o !in Served(s.log)
       case Fill => !s.daemon.Absent? && o !in Served(s.log)
       case Arm => !s.daemon.Absent? && Pending(s, o)
       case Post => !s.daemon.Absent? && Pending(s, o) && (s.rqDone || s.daemon.Requesting?)
       case Wait => WaitPhase(s, o)
       case Check =>
         !s.daemon.Absent? && !s.daemon.Setting? && !s.daemon.Clearing? &&
         (s.pidDaemon != 0 ==> Answered(s, o))
       case Copy => !s.daemon.Absent? && !s.daemon.Setting? && !s.daemon.Clearing? && Answered(s, o)
       case Release(outcome) =>
         !s.daemon.Absent? && (s.daemon.Setting? || s.daemon.Clearing? ==> outcome.Rejected?)
       case _ => true
  }

  /** With nobody inside, a running daemon is waiting and no request is posted. */
  ghost predicate Handshake<D, B>(s: State<D, B>) {
    if HasOwner(s) then
      s.grants != [] && Last(s.grants) < |s.calls| && OwnerPhase(s, Last(s.grants))
    else
      (InLoop(s.daemon) ==> Idle(s)) && (s.daemon.Clearing? ==> s.rqAvail)
  }

  /** The calls granted semSerialize so far, each once, and among them, in the same order,
      the calls that were handled, each once. */
  ghost predicate Order<D, B>(s: State<D, B>) {
    && (forall i | 0 <= i < |s.grants| ::
          s.grants[i] < |s.calls| && !Early(s.calls[s.grants[i]].pc))
    && (forall i, j | 0 <= i < j < |s.grants| :: s.grants[i] != s.grants[j])
    && LogCalls(s.log) == Restrict(s.grants, Served(s.log))
    && (forall c | c in Served(s.log) :: c in s.grants)
    && (forall i, j | 0 <= i < j < |s.log| && s.log[i].Handled? && s.log[j].Handled? ::
          s.log[i].caller != s.log[j].caller)
  }

  /** The call carries a reply only if it was handled with exactly that reply. */
  ghost predicate Truthful<B>(log: seq<Event<B>>, c: nat, call: Call<B>) {
    match call.pc
    case Release(Replied(b)) => Handled(c, call.rq, b) in log
    case Returned(Replied(b)) => Handled(c, call.rq, b) in log
    case _ => true
  }

  /** The log is a sequential run of the daemons over the requests of the callers, and every
      reply a call carries comes from the log. */
  ghost predicate Sequential<D, B>(sv: Server<D, B>, s: State<D, B>) {
    && s.data == ServerData(sv, s.log)
    && (s.daemon.Setting? || s.daemon.Clearing? ==> s.log != [] && Last(s.log).Started?)
    && (forall j | 0 <= j < |s.log| && s.log[j].Handled? ::
          && s.log[j].reply == sv.handle(ServerData(sv, s.log[..j]), s.log[j].rq).1
          && s.log[j].caller < |s.calls| && s.log[j].rq == s.calls[s.log[j].caller].rq)
    && (forall c | 0 <= c < |s.calls| :: Truthful(s.log, c, s.calls[c]))
  }

  ghost predicate Inv<D, B>(sv: Server<D, B>, s: State<D, B>) {
    Mutex(s) && Pids(s) && Handshake(s) && Order(s) && Sequential(sv, s)
  }

  // ----- the log and the grants grow at their ends

  lemma ServedAppend<B>(log: seq<Event<B>>, e: Event<B>)
    ensures Served(log + [e]) == if e.Handled? then Served(log) + {e.caller} else Served(log)
  {
    var s := Served(log + [e]);
    assert forall x :: x in log + [e] <==> x in log || x == e;
    forall c | c in Served(log) || (e.Handled? && c == e.caller)
      ensures c in s
    {
      if c in Served(log) {
        var x :| x in log && x.Handled? && x.caller == c;
        assert x in log + [e];
      } else {
        assert e in log + [e];
      }
    }
  }

  lemma LogCallsAppend<B>(log: seq<Event<B>>, e: Event<B>)
    ensures LogCalls(log + [e]) == LogCalls(log) + (if e.Handled? then [e.caller] else [])
  {
    assert (log + [e])[..|log|] == log;
  }

  lemma ServerDataAppend<D, B>(sv: Server<D, B>, log: seq<Event<B>>, e: Event<B>)
    ensures ServerData(sv, log + [e]) ==
            if e.Started? then sv.init else sv.handle(ServerData(sv, log), e.rq).0
  {
    assert (log + [e])[..|log|] == log;
  }

  lemma RestrictAppend(g: seq<nat>, c: nat, keep: set<nat>)
    ensures Restrict(g + [c], keep) == Restrict(g, keep) + (if c in keep then [c] else [])
  {
    assert (g + [c])[..|g|] == g;
  }

  /** Adding an element that does not occur in g to the kept set changes nothing. */
  lemma {:induction false} RestrictIgnores(g: seq<nat>, keep: set<nat>, c: nat)
    requires c !in g
    ensures Restrict(g, keep + {c}) == Restrict(g, keep)
  {
    if g != [] {
      RestrictIgnores(g[..|g| - 1], keep, c);
      assert Last(g) in g;
    }
  }

  /** Handling the last granted call appends it to the log in grant order. */
  lemma RestrictLast(g: seq<nat>, keep: set<nat>)
    requires g != [] && Last(g) !in keep
    requires forall i, j | 0 <= i < j < |g| :: g[i] != g[j]
    ensures Restrict(g, keep + {Last(g)}) == Restrict(g, keep) + [Last(g)]
  {
    RestrictIgnores(g[..|g| - 1], keep, Last(g));
  }

  // ----- preservation, part by part

  /** A client's step moves that client and leaves every other call as it was. */
  lemma ClientFrame<D, B>(sv: Server<D, B>, s: State<D, B>, a: Action)
    requires Enabled(s, a) && (a.Client? || a.Reject?)
    ensures var t := Next(sv, s, a);
            && |t.calls| == |s.calls|
            && (forall c | 0 <= c < |s.calls| && c != a.c :: t.calls[c] == s.calls[c])
            && t.calls[a.c].pid == s.calls[a.c].pid && t.calls[a.c].rq == s.calls[a.c].rq
            && t.daemon == s.daemon && t.log == s.log && t.data == s.data
            && t.pidDaemon == s.pidDaemon
  {
  }

  lemma MutexClient<D, B>(sv: Server<D, B>, s: State<D, B>, a: Action)
    requires Mutex(s) && Enabled(s, a) && (a.Client? || a.Reject?)
    ensures Mutex(Next(sv, s, a))
  {
    ClientFrame(sv, s, a);
    var t := Next(sv, s, a);
    var c := a.c;
    if Owns(s.calls[c].pc) {
      assert HasOwner(s) && Last(s.grants) == c;
      assert forall d | 0 <= d < |s.calls| && d != c :: !Owns(s.calls[d].pc);
    }
  }

  lemma MutexDaemon<D, B>(sv: Server<D, B>, s: State<D, B>, a: Action)
    requires Mutex(s) && Enabled(s, a) && CleanStep(s, a) && !a.Client? && !a.Reject?
    ensures Mutex(Next(sv, s, a))
  {
    var t := Next(sv, s, a);
    assert t.calls == s.calls && t.grants == s.grants;
  }

  lemma PidsStep<D, B>(sv: Server<D, B>, s: State<D, B>, a: Action)
    requires Pids(s) && Enabled(s, a)
    ensures Pids(Next(sv, s, a))
  {
    if a.Client? || a.Reject? {
      ClientFrame(sv, s, a);
    }
  }

  lemma HandshakeClient<D, B>(sv: Server<D, B>, s: State<D, B>, a: Action)
    requires Inv(sv, s) && Enabled(s, a) && (a.Client? || a.Reject?)
    ensures Handshake(Next(sv, s, a))
  {
    var c := a.c;
    if Owns(s.calls[c].pc) {
      assert HasOwner(s) && Last(s.grants) == c;
    } else if s.calls[c].pc.Request? {
      assert c !in s.grants;
      assert c !in Served(s.log);
    }
  }

  lemma HandshakeDaemon<D, B>(sv: Server<D, B>, s: State<D, B>, a: Action)
    requires Mutex(s) && Pids(s) && Handshake(s) && Enabled(s, a) && CleanStep(s, a)
    requires a.Daemon? || a.Stop?
    ensures Handshake(Next(sv, s, a))
  {
  }

  lemma HandshakeStart<D, B>(sv: Server<D, B>, s: State<D, B>, a: Action)
    requires Mutex(s) && Handshake(s) && Enabled(s, a) && a.Start?
    ensures Handshake(Next(sv, s, a))
  {
    ServedAppend(s.log, Started);
  }

  lemma OrderClient<D, B>(sv: Server<D, B>, s: State<D, B>, a: Action)
    requires Order(s) && Enabled(s, a) && (a.Client? || a.Reject?)
    ensures Order(Next(sv, s, a))
  {
    ClientFrame(sv, s, a);
    if a.Client? && s.calls[a.c].pc.Request? {
      assert a.c !in s.grants;
      RestrictAppend(s.grants, a.c, Served(s.log));
    }
  }

  /** The one step that uses the buffer: the daemon handles the request of the owner. */
  lemma HandlesOwner<D, B>(sv: Server<D, B>, s: State<D, B>)
    requires Mutex(s) && Handshake(s) && s.daemon.Handling?
    ensures s.grants != [] && Last(s.grants) < |s.calls|
    ensures var o := Last(s.grants);
            && s.calls[o].pc.Wait? && Pending(s, o)
            && Next(sv, s, Daemon).log ==
               s.log + [Handled(o, s.calls[o].rq, sv.handle(s.data, s.buf).1)]
  {
  }

  lemma OrderHandled<D, B>(s: State<D, B>, t: State<D, B>, e: Event<B>)
    requires Order(s) && t.calls == s.calls && t.grants == s.grants && t.log == s.log + [e]
    requires e.Handled? ==>
               s.grants != [] && e.caller == Last(s.grants) && e.caller !in Served(s.log)
    ensures Order(t)
  {
    ServedAppend(s.log, e);
    LogCallsAppend(s.log, e);
    if e.Handled? {
      RestrictLast(s.grants, Served(s.log));
    }
  }

  lemma OrderDaemon<D, B>(sv: Server<D, B>, s: State<D, B>, a: Action)
    requires Mutex(s) && Handshake(s) && Order(s) && Enabled(s, a) && !a.Client? && !a.Reject?
    ensures Order(Next(sv, s, a))
  {
    var t := Next(sv, s, a);
    if t.log != s.log {
      if s.daemon.Handling? {
        HandlesOwner(sv, s);
      }
      OrderHandled(s, t, Last(t.log));
    }
  }

  lemma SequentialClient<D, B>(sv: Server<D, B>, s: State<D, B>, a: Action)
    requires Mutex(s) && Handshake(s) && Sequential(sv, s) && Enabled(s, a) && (a.Client? || a.Reject?)
    ensures Sequential(sv, Next(sv, s, a))
  {
    ClientFrame(sv, s, a);
    if a.Client? && s.calls[a.c].pc.Copy? {
      assert Last(s.log) in s.log;
    }
    assert Truthful(s.log, a.c, s.calls[a.c]);
  }

  lemma SequentialDaemon<D, B>(sv: Server<D, B>, s: State<D, B>, a: Action)
    requires Mutex(s) && Handshake(s) && Sequential(sv, s) && Enabled(s, a) && !a.Client? && !a.Reject?
    ensures Sequential(sv, Next(sv, s, a))
  {
    var t := Next(sv, s, a);
    assert t.calls == s.calls;
    if t.log != s.log {
      var e := Last(t.log);
      assert t.log == s.log + [e];
      if e.Handled? {
        HandlesOwner(sv, s);
      }
      ServerDataAppend(sv, s.log, e);
      forall j | 0 <= j < |t.log|
        ensures t.log[..j] == s.log[..j]
      {
      }
      forall c | 0 <= c < |s.calls|
        ensures Truthful(t.log, c, t.calls[c])
      {
        assert Truthful(s.log, c, s.calls[c]);
      }
    }
  }

  /** Every step of every run keeps the invariant, provided a start ends with semSerialize
      clear. */
  lemma InvStep<D, B>(sv: Server<D, B>, s: State<D, B>, a: Action)
    requires Inv(sv, s) && Enabled(s, a) && CleanStep(s, a)
    ensures Inv(sv, Next(sv, s, a))
  {
    PidsStep(sv, s, a);
    if a.Client? || a.Reject? {
      MutexClient(sv, s, a);
      HandshakeClient(sv, s, a);
      OrderClient(sv, s, a);
      SequentialClient(sv, s, a);
    } else {
      MutexDaemon(sv, s, a);
      if a.Start? {
        HandshakeStart(sv, s, a);
      } else {
        HandshakeDaemon(sv, s, a);
      }
      OrderDaemon(sv, s, a);
      SequentialDaemon(sv, s, a);
    }
  }
}
