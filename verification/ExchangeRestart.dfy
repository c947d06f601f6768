/** Starts after histories that were not clean: when exactly a start makes the exchange new
    again, and that everything said of clean runs then holds from there on. */
module ExchangeRestart {
  import opened Exchange
  import opened ExchangeInvariant
  import opened ExchangeRuns

  /** What every run keeps, clean or not. */
  ghost predicate Basic<D, B>(sv: Server<D, B>, s: State<D, B>) {
    && Pids(s)
    && (s.daemon.Setting? || s.daemon.Clearing? ==>
          s.data == sv.init && s.log != [] && Last(s.log).Started?)
  }

  lemma {:induction false} BasicRun<D, B>(sv: Server<D, B>, s: State<D, B>, run: seq<Action>)
    requires Basic(sv, s) && Feasible(sv, s, run)
    ensures Basic(sv, After(sv, s, run))
    decreases |run|
  {
    if run != [] {
      PidsStep(sv, s, run[0]);
      BasicRun(sv, Next(sv, s, run[0]), run[1..]);
    }
  }

  /** The call without its outcome. */
  function Forgotten<B>(call: Call<B>): Call<B> {
    if call.pc.Returned? then call.(pc := Returned(NotRunning)) else call
  }

  /** The state without its history: as if its daemon were the first and no call had returned
      anything. */
  function Forget<D, B>(s: State<D, B>): State<D, B> {
    s.(calls := seq(|s.calls|, c requires 0 <= c < |s.calls| => Forgotten(s.calls[c])),
       grants := [], log := [Started])
  }

  predicate NobodyInside<D, B>(s: State<D, B>) {
    forall c | 0 <= c < |s.calls| :: !Owns(s.calls[c].pc)
  }

  /** After every history, clean or not, a start makes the exchange as new if and only if its
      last step finds nobody inside and semRqAvail set. */
  lemma RestartExactly<D, B>(sv: Server<D, B>, s: State<D, B>, run: seq<Action>)
    requires Init(sv, s) && Feasible(sv, s, run) && After(sv, s, run).daemon.Clearing?
    ensures var u := After(sv, s, run);
            var t := Next(sv, u, Daemon);
            && t.log != [] && Last(t.log).Started?
            && (Inv(sv, Forget(t)) <==> NobodyInside(u) && u.rqAvail)
  {
    BasicRun(sv, s, run);
    var u := After(sv, s, run);
    var t := Next(sv, u, Daemon);
    var f := Forget(t);
    assert forall c | 0 <= c < |u.calls| :: Owns(f.calls[c].pc) <==> Owns(u.calls[c].pc);
    if NobodyInside(u) && u.rqAvail {
      assert Mutex(f) && Pids(f) && Handshake(f);
      assert Order(f) && Sequential(sv, f);
    }
  }

  /** What happened before: who was granted semSerialize, the events, and which calls had
      returned. */
  datatype Past<B> = Past(grants: seq<nat>, log: seq<Event<B>>, returned: set<nat>)

  /** The states agree but for the past, which f leaves out. */
  ghost predicate Same<D, B>(s: State<D, B>, f: State<D, B>, past: Past<B>) {
    && s.(calls := f.calls, grants := f.grants, log := f.log) == f
    && |s.calls| == |f.calls|
    && (forall c | 0 <= c < |s.calls| :: SameCall(s.calls[c], f.calls[c], c in past.returned))
    && s.grants == past.grants + f.grants && s.log == past.log + f.log
  }

  ghost predicate SameCall<B>(a: Call<B>, b: Call<B>, returned: bool) {
    if returned then a.pc.Returned? && b.pc.Returned? else a == b
  }

  lemma SameEnabled<D, B>(s: State<D, B>, f: State<D, B>, a: Action, past: Past<B>)
    requires Same(s, f, past)
    ensures Enabled(s, a) <==> Enabled(f, a)
    ensures CleanStep(s, a) <==> CleanStep(f, a)
    ensures Enabled(s, a) && (a.Client? || a.Reject?) ==> s.calls[a.c] == f.calls[a.c]
  {
    if (a.Client? || a.Reject?) && a.c < |s.calls| {
      assert SameCall(s.calls[a.c], f.calls[a.c], a.c in past.returned);
    }
  }

  lemma SameClient<D, B>(sv: Server<D, B>, s: State<D, B>, f: State<D, B>, a: Action, past: Past<B>)
    requires Same(s, f, past) && Enabled(s, a) && Enabled(f, a) && (a.Client? || a.Reject?)
    ensures Same(Next(sv, s, a), Next(sv, f, a), past)
  {
    SameEnabled(s, f, a, past);
    var s', f' := Next(sv, s, a), Next(sv, f, a);
    assert past.grants + (f.grants + [a.c]) == s.grants + [a.c];
    forall c | 0 <= c < |s'.calls|
      ensures SameCall(s'.calls[c], f'.calls[c], c in past.returned)
    {
      assert SameCall(s.calls[c], f.calls[c], c in past.returned);
    }
  }

  lemma SameDaemon<D, B>(sv: Server<D, B>, s: State<D, B>, f: State<D, B>, a: Action, past: Past<B>)
    requires Same(s, f, past) && Enabled(s, a) && Enabled(f, a) && !a.Client? && !a.Reject? && Inv(sv, f)
    ensures Same(Next(sv, s, a), Next(sv, f, a), past)
  {
    if a.Daemon? && s.daemon.Handling? {
      HandlesOwner(sv, f);
      assert Last(s.grants) == Last(f.grants);
    }
    hide Inv;
    var s', f' := Next(sv, s, a), Next(sv, f, a);
    if f'.log != f.log {
      assert past.log + (f.log + [Last(f'.log)]) == s.log + [Last(f'.log)];
    }
  }

  lemma {:induction false} SameRun<D, B>(
    sv: Server<D, B>, s: State<D, B>, f: State<D, B>, run: seq<Action>, past: Past<B>)
    requires Same(s, f, past) && Inv(sv, f) && Clean(sv, s, run)
    ensures Feasible(sv, s, run) && Clean(sv, f, run) && Feasible(sv, f, run)
    ensures Same(After(sv, s, run), After(sv, f, run), past)
    decreases |run|
  {
    hide Inv, Same, Next, Enabled, CleanStep;
    if run != [] {
      var a := run[0];
      SameEnabled(s, f, a, past);
      if a.Client? || a.Reject? {
        SameClient(sv, s, f, a, past);
      } else {
        SameDaemon(sv, s, f, a, past);
      }
      InvStep(sv, f, a);
      SameRun(sv, Next(sv, s, a), Next(sv, f, a), run[1..], past);
    }
  }

  /** What happened since the last event of t. */
  function Since<D, B>(t: State<D, B>, u: State<D, B>): seq<Event<B>>
    requires 0 < |t.log| <= |u.log|
  {
    u.log[|t.log| - 1..]
  }

  /** From such a start on, whatever the history: over every clean run, one thread at most is
      inside; the events since the start are a faithful run of a new daemon; a call that had
      not returned by the start and returns with a reply was handled since, with its own
      request and that reply; and no call that had returned is handled again. */
  lemma RestartIsNew<D, B>(sv: Server<D, B>, t: State<D, B>, run: seq<Action>, c: nat, d: nat)
    requires t.log != [] && Last(t.log).Started? && Inv(sv, Forget(t)) && Clean(sv, t, run)
    requires c < |t.calls| && d < |t.calls|
    ensures Feasible(sv, t, run)
    ensures var u := After(sv, t, run);
            && |u.calls| == |t.calls| && |t.log| <= |u.log|
            && (c != d ==> !(Owns(u.calls[c].pc) && Owns(u.calls[d].pc)))
            && Faithful(sv, Since(t, u))
            && (t.calls[c].pc.Returned? ==> c !in Served(Since(t, u)))
            && (!t.calls[c].pc.Returned? ==>
                  forall b :: u.calls[c].pc == Returned(Replied(b)) ==>
                    Handled(c, t.calls[c].rq, b) in Since(t, u))
  {
    hide Inv, Forget, Faithful, Served, Clean, Feasible, Owns;
    var f, past := Forget(t), PastOf(t);
    ForgetSame(t);
    SameRun(sv, t, f, run, past);
    NewRun(sv, f, run, c, d);
    RunFrame(sv, t, run);
    var u, v := After(sv, t, run), After(sv, f, run);
    assert Since(t, u) == v.log;
    assert SameCall(u.calls[c], v.calls[c], c in past.returned);
    assert SameCall(u.calls[d], v.calls[d], d in past.returned);
    OwnsNothing(u, c);
    OwnsNothing(u, d);
  }

  function PastOf<D, B>(t: State<D, B>): Past<B>
    requires t.log != []
  {
    Past(t.grants, t.log[..|t.log| - 1], set k | 0 <= k < |t.calls| && t.calls[k].pc.Returned?)
  }

  lemma ForgetSame<D, B>(t: State<D, B>)
    requires t.log != [] && Last(t.log).Started?
    ensures var f := Forget(t);
            && Same(t, f, PastOf(t)) && f.log == [Started] && |f.calls| == |t.calls|
            && forall c | 0 <= c < |t.calls| ::
                 (f.calls[c].pc.Returned? <==> t.calls[c].pc.Returned?) && f.calls[c].rq == t.calls[c].rq
  {
    var f := Forget(t);
    assert t.log == t.log[..|t.log| - 1] + f.log && t.grants == t.grants + f.grants;
  }

  lemma OwnsNothing<D, B>(u: State<D, B>, c: nat)
    requires c < |u.calls|
    ensures u.calls[c].pc.Returned? ==> !Owns(u.calls[c].pc)
  {
  }

  lemma NewRun<D, B>(sv: Server<D, B>, f: State<D, B>, run: seq<Action>, c: nat, d: nat)
    requires Inv(sv, f) && f.log == [Started] && Clean(sv, f, run) && c < |f.calls| && d < |f.calls|
    ensures Feasible(sv, f, run)
    ensures var v := After(sv, f, run);
            && |v.calls| == |f.calls|
            && (c != d ==> !(Owns(v.calls[c].pc) && Owns(v.calls[d].pc)))
            && Faithful(sv, v.log)
            && (f.calls[c].pc.Returned? ==> c !in Served(v.log))
            && (forall b :: v.calls[c].pc == Returned(Replied(b)) ==> Handled(c, f.calls[c].rq, b) in v.log)
  {
    InvRun(sv, f, run);
    RunFrame(sv, f, run);
    var v := After(sv, f, run);
    assert Truthful(v.log, c, v.calls[c]);
    if f.calls[c].pc.Returned? {
      SettledRun(sv, f, run, c);
      assert Served(f.log) == {};
    }
  }
}
