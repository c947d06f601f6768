/** The books the daemon keeps: which volumes are attached, newest first, and how many files
    and searches are open on each. */
module Books {
  /** What a program may do to a volume. Close is final or not; a final one closes the file for
      the whole system. */
  datatype Op<V, F, S> =
    | Attach(volume: V)
    | Detach(volume: V, force: bool)
    | Open(volume: V, file: F)
    | Close(volume: V, file: F, final: bool)
    | FindFirst(volume: V, search: S)
    | FindClose(volume: V, search: S)

  datatype Ledger<V> = Ledger(list: seq<V>, cOpenFiles: map<V, int>, cSearches: map<V, int>)

  /** The list without a volume. */
  function Without<V(==)>(list: seq<V>, v: V): seq<V> {
    if list == [] then []
    else if list[0] == v then Without(list[1..], v)
    else [list[0]] + Without(list[1..], v)
  }

  predicate Keeps<V>(l: Ledger<V>) {
    && (forall i, j | 0 <= i < j < |l.list| :: l.list[i] != l.list[j])
    && (forall v <- l.list :: v in l.cOpenFiles && v in l.cSearches)
  }

  /** detachVolume goes ahead only if it is forced or nothing is open. */
  predicate MayDetach<V>(l: Ledger<V>, v: V, force: bool)
    requires v in l.cOpenFiles && v in l.cSearches
  {
    force || (l.cOpenFiles[v] == 0 && l.cSearches[v] == 0)
  }

  /** The books after a run of operations. */
  function Replay<V(==), F, S>(log: seq<Op<V, F, S>>): Ledger<V> {
    if log == [] then Ledger([], map[], map[])
    else Entered(Replay(log[..|log| - 1]), log[|log| - 1])
  }

  function Entered<V(==), F, S>(l: Ledger<V>, op: Op<V, F, S>): Ledger<V> {
    match op
    case Attach(v) => Ledger([v] + l.list, l.cOpenFiles[v := 0], l.cSearches[v := 0])
    case Detach(v, force) =>
      if v in l.cOpenFiles && v in l.cSearches && MayDetach(l, v, force) then l.(list := Without(l.list, v)) else l
    case Open(v, _) => l.(cOpenFiles := Plus(l.cOpenFiles, v, 1))
    case Close(v, _, final) => if final then l.(cOpenFiles := Plus(l.cOpenFiles, v, -1)) else l
    case FindFirst(v, _) => l.(cSearches := Plus(l.cSearches, v, 1))
    case FindClose(v, _) => l.(cSearches := Plus(l.cSearches, v, -1))
  }

  function Plus<V(==)>(counts: map<V, int>, v: V, n: int): map<V, int> {
    if v in counts then counts[v := counts[v] + n] else counts
  }

  // ----- the handles themselves

  /** The files opened on a volume and not finally closed. Where a volume is attached at the
      address of one that was detached, those of both. */
  function FilesOut<V(==), F(==), S>(log: seq<Op<V, F, S>>, v: V): set<F> {
    if log == [] then {} else FilesAfter(FilesOut(log[..|log| - 1], v), log[|log| - 1], v)
  }

  function FilesAfter<V(==), F(==), S>(before: set<F>, op: Op<V, F, S>, v: V): set<F> {
    match op
    case Open(u, f) => if u == v then before + {f} else before
    case Close(u, f, final) => if u == v && final then before - {f} else before
    case _ => before
  }

  function SearchesOut<V(==), F, S(==)>(log: seq<Op<V, F, S>>, v: V): set<S> {
    if log == [] then {} else SearchesAfter(SearchesOut(log[..|log| - 1], v), log[|log| - 1], v)
  }

  function SearchesAfter<V(==), F, S(==)>(before: set<S>, op: Op<V, F, S>, v: V): set<S> {
    match op
    case FindFirst(u, s) => if u == v then before + {s} else before
    case FindClose(u, s) => if u == v then before - {s} else before
    case _ => before
  }

  /** How many files were left open at its address when the volume was attached last. */
  function FilesLeft<V(==), F(==), S>(log: seq<Op<V, F, S>>, v: V): nat {
    if log == [] then 0
    else if IsAttach(log[|log| - 1], v) then |FilesOut(log[..|log| - 1], v)|
    else FilesLeft(log[..|log| - 1], v)
  }

  function SearchesLeft<V(==), F, S(==)>(log: seq<Op<V, F, S>>, v: V): nat {
    if log == [] then 0
    else if IsAttach(log[|log| - 1], v) then |SearchesOut(log[..|log| - 1], v)|
    else SearchesLeft(log[..|log| - 1], v)
  }

  predicate IsAttach<V(==), F, S>(op: Op<V, F, S>, v: V) {
    op.Attach? && op.volume == v
  }

  predicate NothingLeft<V(==), F(==), S(==)>(log: seq<Op<V, F, S>>, v: V) {
    FilesLeft(log, v) == 0 && SearchesLeft(log, v) == 0
  }

  /** The caller uses handles properly: it opens and searches on attached volumes, and closes
      what is open, if need be after the volume was detached. The daemon gives out new
      handles. */
  predicate Proper<V(==), F(==), S(==)>(log: seq<Op<V, F, S>>) {
    log == [] ||
    (Proper(log[..|log| - 1]) && Allowed(log[..|log| - 1], log[|log| - 1]))
  }

  predicate Allowed<V(==), F(==), S(==)>(log: seq<Op<V, F, S>>, op: Op<V, F, S>) {
    match op
    case Attach(v) => v !in Replay(log).list
    case Detach(v, _) => v in Replay(log).list
    case Open(v, f) => v in Replay(log).list && f !in FilesOut(log, v)
    case Close(v, f, _) => f in FilesOut(log, v)
    case FindFirst(v, s) => v in Replay(log).list && s !in SearchesOut(log, v)
    case FindClose(v, s) => s in SearchesOut(log, v)
  }

  lemma {:induction false} WithoutExact<V>(list: seq<V>, v: V)
    ensures forall u <- Without(list, v) :: u in list && u != v
    ensures forall u <- list :: u == v || u in Without(list, v)
  {
    if list != [] {
      WithoutExact(list[1..], v);
    }
  }

  lemma {:induction false} WithoutDistinct<V>(list: seq<V>, v: V)
    requires forall i, j | 0 <= i < j < |list| :: list[i] != list[j]
    ensures forall i, j | 0 <= i < j < |Without(list, v)| :: Without(list, v)[i] != Without(list, v)[j]
  {
    if list != [] {
      WithoutDistinct(list[1..], v);
      WithoutExact(list[1..], v);
      assert list[0] !in list[1..];
    }
  }

  /** A volume that occurs once is cut out where it is. */
  lemma {:induction false} WithoutAt<V>(list: seq<V>, k: nat)
    requires k < |list| && forall i, j | 0 <= i < j < |list| :: list[i] != list[j]
    ensures Without(list, list[k]) == list[..k] + list[k + 1..]
  {
    if k > 0 {
      WithoutAt(list[1..], k - 1);
      assert list[1..][..k - 1] == list[1..k] && list[1..][k..] == list[k + 1..];
      assert list[..k] == [list[0]] + list[1..k];
    } else {
      WithoutAbsent(list[1..], list[0]);
    }
  }

  lemma {:induction false} WithoutAbsent<V>(list: seq<V>, v: V)
    requires v !in list
    ensures Without(list, v) == list
  {
    if list != [] {
      WithoutAbsent(list[1..], v);
    }
  }

  lemma {:induction false} ReplayKeeps<V, F, S>(log: seq<Op<V, F, S>>)
    requires Proper(log)
    ensures Keeps(Replay(log))
  {
    if log != [] {
      var before, op := log[..|log| - 1], log[|log| - 1];
      ReplayKeeps(before);
      var was := Replay(before);
      if op.Detach? {
        WithoutExact(was.list, op.volume);
        WithoutDistinct(was.list, op.volume);
      }
    }
  }

  lemma {:induction false} FilesCount<V, F, S>(log: seq<Op<V, F, S>>, v: V)
    requires Proper(log) && v in Replay(log).list
    ensures v in Replay(log).cOpenFiles && Replay(log).cOpenFiles[v] == |FilesOut(log, v)| - FilesLeft(log, v)
  {
    var before, op := log[..|log| - 1], log[|log| - 1];
    ReplayKeeps(log);
    assert Allowed(before, op) && Proper(before) && Replay(log) == Entered(Replay(before), op);
    assert FilesOut(log, v) == FilesAfter(FilesOut(before, v), op, v);
    hide Replay, FilesOut, Proper;
    if !IsAttach(op, v) {
      WithoutExact(Replay(before).list, op.volume);
      FilesCount(before, v);
    }
  }

  lemma {:induction false} SearchesCount<V, F, S>(log: seq<Op<V, F, S>>, v: V)
    requires Proper(log) && v in Replay(log).list
    ensures v in Replay(log).cSearches && Replay(log).cSearches[v] == |SearchesOut(log, v)| - SearchesLeft(log, v)
  {
    var before, op := log[..|log| - 1], log[|log| - 1];
    ReplayKeeps(log);
    assert Allowed(before, op) && Proper(before) && Replay(log) == Entered(Replay(before), op);
    assert SearchesOut(log, v) == SearchesAfter(SearchesOut(before, v), op, v);
    hide Replay, SearchesOut, Proper;
    if !IsAttach(op, v) {
      WithoutExact(Replay(before).list, op.volume);
      SearchesCount(before, v);
    }
  }

  /** Over every run, the counters of an attached volume are the numbers of files and searches
      that are out on it, less those that were left at its address when it was attached. So
      they are the numbers of handles given out and not finally closed if and only if none was
      left. */
  lemma CountersCount<V, F, S>(log: seq<Op<V, F, S>>, v: V)
    requires Proper(log) && v in Replay(log).list
    ensures var l := Replay(log);
            && v in l.cOpenFiles && l.cOpenFiles[v] == |FilesOut(log, v)| - FilesLeft(log, v)
            && v in l.cSearches && l.cSearches[v] == |SearchesOut(log, v)| - SearchesLeft(log, v)
            && (l.cOpenFiles[v] == |FilesOut(log, v)| && l.cSearches[v] == |SearchesOut(log, v)| <==>
                NothingLeft(log, v))
  {
    FilesCount(log, v);
    SearchesCount(log, v);
  }

  /** A detach that is not forced succeeds exactly if as much is open as was left when the
      volume was attached; that is, if nothing was left, exactly if nothing is open. */
  lemma DetachGate<V, F, S>(log: seq<Op<V, F, S>>, v: V)
    requires Proper(log) && v in Replay(log).list
    ensures var after := Replay(log + [Op.Detach(v, false)]);
            if |FilesOut(log, v)| == FilesLeft(log, v) && |SearchesOut(log, v)| == SearchesLeft(log, v)
            then after == Replay(log).(list := Without(Replay(log).list, v)) && v !in after.list
            else after == Replay(log)
    ensures NothingLeft(log, v) ==>
              (v !in Replay(log + [Op.Detach(v, false)]).list <==> !AnythingOut(log, v))
  {
    CountersCount(log, v);
    WithoutExact(Replay(log).list, v);
    assert (log + [Op.Detach(v, false)])[..|log|] == log;
  }

  predicate AnythingOut<V(==), F(==), S(==)>(log: seq<Op<V, F, S>>, v: V) {
    FilesOut(log, v) != {} || SearchesOut(log, v) != {}
  }

  /** A volume has left the list, and a handle of it is still out. */
  predicate Dangles<V(==), F(==), S(==)>(log: seq<Op<V, F, S>>) {
    exists i | 0 <= i < |log| :: DanglesAt(log, i)
  }

  predicate DanglesAt<V(==), F(==), S(==)>(log: seq<Op<V, F, S>>, i: nat)
    requires i < |log|
  {
    log[i].volume !in Replay(log).list && AnythingOut(log, log[i].volume)
  }

  /** If nothing was left when it was attached, a volume leaves the list with a handle out
      exactly if the detach is forced and there is one. */
  lemma DetachDangles<V, F, S>(log: seq<Op<V, F, S>>, v: V, force: bool)
    requires Proper(log) && v in Replay(log).list
    ensures var after := log + [Op.Detach(v, force)];
            && AnythingOut(after, v) == AnythingOut(log, v)
            && (force ==> v !in Replay(after).list)
            && (NothingLeft(log, v) ==>
                  (v !in Replay(after).list && AnythingOut(after, v) <==> force && AnythingOut(log, v)))
  {
    CountersCount(log, v);
    WithoutExact(Replay(log).list, v);
    assert (log + [Op.Detach(v, force)])[..|log|] == log;
  }

  /** No detach is forced while a handle is out. */
  predicate SafeDetaches<V(==), F(==), S(==)>(log: seq<Op<V, F, S>>) {
    log == [] ||
    var before, op := log[..|log| - 1], log[|log| - 1];
    SafeDetaches(before) && (op.Detach? && op.force ==> !AnythingOut(before, op.volume))
  }

  /** Then no handle outlives its volume, none is left for another one, and the counters are
      the numbers of handles out. */
  lemma {:induction false} SafeKeepsHandles<V, F, S>(log: seq<Op<V, F, S>>, v: V)
    requires Proper(log) && SafeDetaches(log)
    ensures v in Replay(log).list || !AnythingOut(log, v)
    ensures NothingLeft(log, v)
  {
    if log != [] {
      var before, op := log[..|log| - 1], log[|log| - 1];
      SafeKeepsHandles(before, v);
      if op.Detach? {
        assert before + [Op.Detach(op.volume, op.force)] == log;
        DetachDangles(before, op.volume, op.force);
        WithoutExact(Replay(before).list, op.volume);
      }
    }
  }

  /** Over a whole run, no handle ever outlives its volume if and only if no detach is forced
      while a handle of the volume is out. */
  lemma {:induction false} DanglesExactly<V, F, S>(log: seq<Op<V, F, S>>)
    requires Proper(log)
    ensures (forall k: nat | k <= |log| :: !Dangles(log[..k])) <==> SafeDetaches(log)
  {
    if log != [] {
      var before, op := log[..|log| - 1], log[|log| - 1];
      DanglesExactly(before);
      assert forall k: nat | k <= |before| :: before[..k] == log[..k];
      assert log[..|log|] == log;
      if SafeDetaches(log) {
        forall i | 0 <= i < |log|
          ensures !DanglesAt(log, i)
        {
          SafeKeepsHandles(log, log[i].volume);
        }
      } else if SafeDetaches(before) {
        SafeKeepsHandles(before, op.volume);
        assert before + [Op.Detach(op.volume, op.force)] == log;
        DetachDangles(before, op.volume, op.force);
        assert DanglesAt(log, |log| - 1);
      } else {
        var k: nat :| k <= |before| && Dangles(before[..k]);
        assert Dangles(log[..k]);
      }
    }
  }

  /** The operation uses the data of a volume that was detached, and so freed. */
  predicate TouchesFreed<V(==), F, S>(log: seq<Op<V, F, S>>, op: Op<V, F, S>) {
    (op.FindClose? || (op.Close? && op.final)) && op.volume !in Replay(log).list
  }

  /** Along a run, such an operation is ever possible if and only if some detach was forced
      while a handle was out. */
  lemma FreedExactly<V, F, S>(log: seq<Op<V, F, S>>)
    requires Proper(log)
    ensures (exists k: nat, op | k <= |log| :: Allowed(log[..k], op) && TouchesFreed(log[..k], op)) <==>
            !SafeDetaches(log)
  {
    DanglesExactly(log);
    forall k: nat, op | k <= |log| && Allowed(log[..k], op) && TouchesFreed(log[..k], op)
      ensures Dangles(log[..k])
    {
      var i := Mentioned(log[..k], op.volume);
      assert DanglesAt(log[..k], i);
    }
    if k: nat :| k <= |log| && Dangles(log[..k]) {
      var op := Closing(log[..k]);
      assert Allowed(log[..k], op) && TouchesFreed(log[..k], op);
    }
  }

  /** The close of a handle that has outlived its volume. */
  lemma Closing<V, F, S>(log: seq<Op<V, F, S>>) returns (op: Op<V, F, S>)
    requires Dangles(log)
    ensures Allowed(log, op) && TouchesFreed(log, op)
  {
    var i :| 0 <= i < |log| && DanglesAt(log, i);
    var v := log[i].volume;
    if FilesOut(log, v) != {} {
      var f :| f in FilesOut(log, v);
      op := Op.Close(v, f, true);
    } else {
      var s :| s in SearchesOut(log, v);
      op := Op.FindClose(v, s);
    }
  }

  /** A forced detach with a file open: the close that follows touches freed data. If another
      volume is attached at the same address first, the close counts on that one, whose
      counter is then wrong. */
  lemma ForcedDetachDangles<V, F, S>(v: V, f: F) returns (log: seq<Op<V, F, S>>)
    ensures Proper(log) && Dangles(log)
    ensures Allowed(log, Op.Close(v, f, true)) && TouchesFreed(log, Op.Close(v, f, true))
    ensures var reused := log + [Op.Attach(v), Op.Close(v, f, true)];
            && Proper(reused) && v in Replay(reused).list
            && FilesOut(reused, v) == {} && Replay(reused).cOpenFiles == map[v := -1]
  {
    assert Replay<V, F, S>([]) == Ledger([], map[], map[]) && FilesOut<V, F, S>([], v) == {};
    WithoutAt([v], 0);
    hide Replay, FilesOut, Proper, Without;
    log := OneMore([], Op.Attach(v), v);
    log := OneMore(log, Op.Open(v, f), v);
    log := OneMore(log, Op.Detach(v, true), v);
    assert FilesOut(log, v) == {f} && Replay(log).list == [];
    assert DanglesAt(log, 2);
    var reused := OneMore(log, Op.Attach(v), v);
    reused := OneMore(reused, Op.Close(v, f, true), v);
    assert reused == log + [Op.Attach(v), Op.Close(v, f, true)];
  }

  lemma OneMore<V, F, S>(log: seq<Op<V, F, S>>, op: Op<V, F, S>, v: V) returns (longer: seq<Op<V, F, S>>)
    requires Proper(log) && Allowed(log, op)
    ensures longer == log + [op] && Proper(longer)
    ensures Replay(longer) == Entered(Replay(log), op)
    ensures FilesOut(longer, v) == FilesAfter(FilesOut(log, v), op, v)
  {
    longer := log + [op];
    assert longer[..|log|] == log;
  }

  /** A volume with a handle out occurs in the log. */
  lemma {:induction false} Mentioned<V, F, S>(log: seq<Op<V, F, S>>, v: V) returns (i: nat)
    requires AnythingOut(log, v)
    ensures i < |log| && log[i].volume == v
  {
    var n := |log| - 1;
    if log[n].volume == v {
      i := n;
    } else {
      i := Mentioned(log[..n], v);
    }
  }

  /** In particular, as long as no detach is forced, no handle outlives its volume. */
  lemma NothingDangles<V, F, S>(log: seq<Op<V, F, S>>, v: V)
    requires Proper(log) && forall i | 0 <= i < |log| :: log[i].Detach? ==> !log[i].force
    ensures v in Replay(log).list || !AnythingOut(log, v)
  {
    UnforcedIsSafe(log);
    SafeKeepsHandles(log, v);
  }

  lemma {:induction false} UnforcedIsSafe<V, F, S>(log: seq<Op<V, F, S>>)
    requires forall i | 0 <= i < |log| :: log[i].Detach? ==> !log[i].force
    ensures SafeDetaches(log)
  {
    if log != [] {
      UnforcedIsSafe(log[..|log| - 1]);
    }
  }

  /** When the volume was attached last, as a number of operations. */
  function AttachedAt<V(==), F, S>(log: seq<Op<V, F, S>>, v: V): int {
    if log == [] then -1
    else if log[|log| - 1].Attach? && log[|log| - 1].volume == v then |log| - 1
    else AttachedAt(log[..|log| - 1], v)
  }

  lemma {:induction false} AttachedBefore<V, F, S>(log: seq<Op<V, F, S>>, v: V)
    ensures AttachedAt(log, v) < |log|
  {
    if log != [] {
      AttachedBefore(log[..|log| - 1], v);
    }
  }

  predicate NewestFirst<V(==), F, S>(log: seq<Op<V, F, S>>, list: seq<V>) {
    forall i, j | 0 <= i < j < |list| :: AttachedAt(log, list[i]) > AttachedAt(log, list[j])
  }

  lemma {:induction false} WithoutNewestFirst<V, F, S>(log: seq<Op<V, F, S>>, list: seq<V>, v: V)
    requires NewestFirst(log, list)
    ensures NewestFirst(log, Without(list, v))
  {
    if list != [] {
      WithoutNewestFirst(log, list[1..], v);
      WithoutExact(list[1..], v);
      var rest := Without(list[1..], v);
      forall j | 0 <= j < |rest|
        ensures AttachedAt(log, list[0]) > AttachedAt(log, rest[j])
      {
        assert rest[j] in rest;
        assert rest[j] in list[1..];
      }
    }
  }

  /** Over every run, the list holds the attached volumes in the order of their attachment,
      newest first. */
  lemma {:induction false} ListNewestFirst<V, F, S>(log: seq<Op<V, F, S>>)
    requires Proper(log)
    ensures NewestFirst(log, Replay(log).list)
  {
    if log != [] {
      var before, op := log[..|log| - 1], log[|log| - 1];
      var was := Replay(before).list;
      ListNewestFirst(before);
      if op.Detach? {
        WithoutNewestFirst(before, was, op.volume);
        SameTimes(log, Replay(log).list);
      } else if op.Attach? {
        SameTimes(log, was);
        forall j | 0 <= j < |was|
          ensures AttachedAt(log, op.volume) > AttachedAt(log, was[j])
        {
          assert was[j] in was;
          AttachedBefore(before, was[j]);
        }
        assert Replay(log).list[1..] == was;
      } else {
        SameTimes(log, was);
      }
    }
  }

  /** An operation does not change when other volumes were attached. */
  lemma SameTimes<V, F, S>(log: seq<Op<V, F, S>>, list: seq<V>)
    requires log != [] && (log[|log| - 1].Attach? ==> log[|log| - 1].volume !in list)
    ensures NewestFirst(log, list) <==> NewestFirst(log[..|log| - 1], list)
    ensures forall v <- list :: AttachedAt(log, v) == AttachedAt(log[..|log| - 1], v)
  {
  }
}
