/** The request exchange between the ring-0 driver and the ring-3 daemon, as a state
    machine. Client threads enter through the file-system entry points, the daemon thread
    loops on GET_REQUEST and DONE_REQUEST, and all of them share one request buffer, three
    semaphores and pidDaemon. Every semaphore call, every read or write of pidDaemon and
    every access to the buffer is one step, and the steps of different threads interleave
    freely. A semaphore is a boolean: true when set, false when clear.

    The fields `grants` and `log` only record history; no guard or update of the other
    fields depends on them. */
module Exchange {

  /** What a call returns to the kernel: ERROR_STUBFSD_DAEMON_NOT_RUNNING,
      ERROR_STUBFSD_DEADLOCK, an error found while copying arguments or results, or the contents
      of the buffer after the request was handled. */
  datatype Outcome<+B> = NotRunning | Deadlock | Rejected | Replied(reply: B)

  /** The next thing a client thread does. */
  datatype ClientPc<+B> =
    | Entry                           // read pidDaemon on entry
    | PidCheck                        // compare its own process with pidDaemon
    | Request                         // request semSerialize
    | Recheck                         // read pidDaemon again
    | Dead                            // clear semSerialize, return NotRunning
    | Fill                            // copy the arguments into the buffer
    | Arm                             // set semRqDone
    | Post                            // clear semRqAvail
    | Wait                            // wait for semRqDone
    | Check                           // read pidDaemon a last time
    | Copy                            // copy the results out of the buffer
    | Release(outcome: Outcome<B>)    // clear semSerialize
    | Returned(outcome: Outcome<B>)

  /** One call of an entry point: the calling process, the request it will put into the
      buffer, and where its thread is. A thread that calls again is another Call; all calls
      of a run are listed from the start, those still to come at Entry. */
  datatype Call<+B> = Call(pid: nat, rq: B, pc: ClientPc<B>)

  /** The next thing the daemon's thread does. */
  datatype DaemonPc =
    | Absent       // no daemon
    | Setting      // starting: pidDaemon is written; set semRqAvail
    | Clearing     // starting: clear semSerialize
    | Looping      // top of the daemon loop
    | Waiting      // GET_REQUEST: wait for semRqAvail
    | Rearming     // GET_REQUEST: set semRqAvail
    | Handling     // ring 3: handle the request in the buffer
    | Finishing    // DONE_REQUEST: clear semRqDone
    | Dying        // stopping: clear pidDaemon
    | Posting      // stopping: clear semRqDone
    | Requesting   // stopping: request semSerialize
    | Unlocking    // stopping: unlock the buffers, clear semSerialize

  /** The daemon process as a state transformer over its private data and the buffer. */
  datatype Server<!D, !B> = Server(init: D, handle: (D, B) -> (D, B))

  /** A daemon started, or a daemon handled request `rq` of call `caller` and left `reply`. */
  datatype Event<+B> = Started | Handled(caller: nat, rq: B, reply: B)

  datatype State<D, B> = State(
    pidDaemon: nat, serialize: bool, rqAvail: bool, rqDone: bool,
    buf: B, calls: seq<Call<B>>, daemon: DaemonPc, data: D,
    grants: seq<nat>, log: seq<Event<B>>)

  /** One step: the next step of a client, a client giving up while it copies arguments or
      results, the next step of the daemon, a daemon starting, the daemon beginning to stop. */
  datatype Action = Client(c: nat) | Reject(c: nat) | Daemon | Start(pid: nat) | Stop

  function Last<T>(s: seq<T>): T
    requires s != []
  {
    s[|s| - 1]
  }

  predicate InLoop(d: DaemonPc) {
    d.Looping? || d.Waiting? || d.Rearming? || d.Handling? || d.Finishing?
  }

  /** The driver has just been loaded: no daemon, every semaphore clear, nobody inside. */
  ghost predicate Init<D, B>(sv: Server<D, B>, s: State<D, B>) {
    && s.pidDaemon == 0 && !s.serialize && !s.rqAvail && !s.rqDone
    && s.daemon.Absent? && s.data == sv.init && s.grants == [] && s.log == []
    && forall c | 0 <= c < |s.calls| :: s.calls[c].pc.Entry? && s.calls[c].pid > 0
  }

  predicate Enabled<D, B>(s: State<D, B>, a: Action) {
    match a
    case Client(c) =>
      c < |s.calls| &&
      (match s.calls[c].pc
       case Request => !s.serialize
       case Wait => !s.rqDone
       case Returned(_) => false
       case _ => true)
    case Reject(c) => c < |s.calls| && (s.calls[c].pc.Fill? || s.calls[c].pc.Copy?)
    case Daemon =>
      (match s.daemon
       case Absent => false
       case Waiting => !s.rqAvail
       case Requesting => !s.serialize
       case _ => true)
    case Start(pid) => s.daemon.Absent? && s.pidDaemon == 0 && pid > 0
    case Stop => InLoop(s.daemon)
  }

  /** Where the client's thread is after its next step. */
  function NextPc<D, B>(s: State<D, B>, call: Call<B>): ClientPc<B>
    requires !call.pc.Returned?
  {
    match call.pc
    case Entry => if s.pidDaemon == 0 then Returned(NotRunning) else PidCheck
    case PidCheck => if call.pid == s.pidDaemon then Returned(Deadlock) else Request
    case Request => Recheck
    case Recheck => if s.pidDaemon == 0 then Dead else Fill
    case Dead => Returned(NotRunning)
    case Fill => Arm
    case Arm => Post
    case Post => Wait
    case Wait => Check
    case Check => if s.pidDaemon == 0 then Release(NotRunning) else Copy
    case Copy => Release(Replied(s.buf))
    case Release(o) => Returned(o)
  }

  function ClientStep<D, B>(s: State<D, B>, c: nat): State<D, B>
    requires Enabled(s, Client(c))
  {
    var pc := s.calls[c].pc;
    s.(
      calls := s.calls[c := s.calls[c].(pc := NextPc(s, s.calls[c]))],
      serialize := pc.Request? || (s.serialize && !pc.Dead? && !pc.Release?),
      rqDone := pc.Arm? || s.rqDone,
      rqAvail := !pc.Post? && s.rqAvail,
      buf := if pc.Fill? then s.calls[c].rq else s.buf,
      grants := if pc.Request? then s.grants + [c] else s.grants
    )
  }

  /** The client finds an argument unusable, either after it began to fill the buffer or, once
      it has its reply, when it copies the results out. */
  function RejectStep<D, B>(s: State<D, B>, c: nat): State<D, B>
    requires Enabled(s, Reject(c))
  {
    s.(
      calls := s.calls[c := s.calls[c].(pc := Release(Rejected))],
      buf := if s.calls[c].pc.Fill? then s.calls[c].rq else s.buf
    )
  }

  function DaemonStep<D, B>(sv: Server<D, B>, s: State<D, B>): State<D, B>
    requires Enabled(s, Daemon)
  {
    match s.daemon
    case Setting => s.(rqAvail := true, daemon := Clearing)
    case Clearing => s.(serialize := false, daemon := Looping)
    case Looping => s.(daemon := Waiting)
    case Waiting => s.(daemon := Rearming)
    case Rearming => s.(rqAvail := true, daemon := Handling)
    case Handling =>
      var (data, reply) := sv.handle(s.data, s.buf);
      var caller := if s.grants == [] then 0 else Last(s.grants);
      s.(data := data, buf := reply, daemon := Finishing, log := s.log + [Handled(caller, s.buf, reply)])
    case Finishing => s.(rqDone := false, daemon := Looping)
    case Dying => s.(pidDaemon := 0, daemon := Posting)
    case Posting => s.(rqDone := false, daemon := Requesting)
    case Requesting => s.(serialize := true, daemon := Unlocking)
    case Unlocking => s.(serialize := false, daemon := Absent)
  }

  function Next<D, B>(sv: Server<D, B>, s: State<D, B>, a: Action): State<D, B>
    requires Enabled(s, a)
  {
    match a
    case Client(c) => ClientStep(s, c)
    case Reject(c) => RejectStep(s, c)
    case Daemon => DaemonStep(sv, s)
    case Start(pid) => s.(pidDaemon := pid, data := sv.init, daemon := Setting, log := s.log + [Started])
    case Stop => s.(daemon := Dying)
  }

  /** Every step of the run can be taken when its turn comes. */
  predicate Feasible<D, B>(sv: Server<D, B>, s: State<D, B>, run: seq<Action>)
    decreases |run|
  {
    run == [] || (Enabled(s, run[0]) && Feasible(sv, Next(sv, s, run[0]), run[1..]))
  }

  /** The state the run ends in. */
  function After<D, B>(sv: Server<D, B>, s: State<D, B>, run: seq<Action>): State<D, B>
    requires Feasible(sv, s, run)
    decreases |run|
  {
    if run == [] then s else After(sv, Next(sv, s, run[0]), run[1..])
  }

  /** The last step of a start finds semSerialize clear. */
  predicate CleanStep<D, B>(s: State<D, B>, a: Action) {
    s.daemon.Clearing? && a.Daemon? ==> !s.serialize
  }

  /** A feasible run all of whose starts end with semSerialize clear. */
  predicate Clean<D, B>(sv: Server<D, B>, s: State<D, B>, run: seq<Action>)
    decreases |run|
  {
    run == [] ||
    (Enabled(s, run[0]) && CleanStep(s, run[0]) && Clean(sv, Next(sv, s, run[0]), run[1..]))
  }

  lemma CleanIsFeasible<D, B>(sv: Server<D, B>, s: State<D, B>, run: seq<Action>)
    requires Clean(sv, s, run)
    ensures Feasible(sv, s, run)
    decreases |run|
  {
    if run != [] {
      CleanIsFeasible(sv, Next(sv, s, run[0]), run[1..]);
    }
  }

  /** A run can be extended by any step its last state allows. */
  lemma {:induction false} Extend<D, B>(sv: Server<D, B>, s: State<D, B>, run: seq<Action>, a: Action)
    requires Feasible(sv, s, run) && Enabled(After(sv, s, run), a)
    ensures Feasible(sv, s, run + [a])
    ensures After(sv, s, run + [a]) == Next(sv, After(sv, s, run), a)
    decreases |run|
  {
    if run == [] {
      assert [a][1..] == [];
    } else {
      Extend(sv, Next(sv, s, run[0]), run[1..], a);
      assert (run + [a])[1..] == run[1..] + [a];
    }
  }

  lemma {:induction false} ExtendClean<D, B>(sv: Server<D, B>, s: State<D, B>, run: seq<Action>, a: Action)
    requires Clean(sv, s, run) && Feasible(sv, s, run)
    requires Enabled(After(sv, s, run), a) && CleanStep(After(sv, s, run), a)
    ensures Clean(sv, s, run + [a])
    decreases |run|
  {
    if run == [] {
      assert [a][1..] == [];
    } else {
      ExtendClean(sv, Next(sv, s, run[0]), run[1..], a);
      assert (run + [a])[1..] == run[1..] + [a];
    }
  }
}
