/** Attached volumes: a doubly linked list that grows at its head and is cut anywhere, and the
    descriptors an image is attached by. */
module Volumes {
  import opened Os2
  import opened IsoDir
  import Find
  import FileIo
  import opened Books

  type Event = Op<VolData, FileIo.OpenFile, Find.SearchData>

  class VolData {
    const disc: Volume
    var cOpenFiles: int
    var cSearches: int
    var pNext: VolData?
    var pPrev: VolData?

    constructor (disc: Volume)
      ensures this.disc == disc && cOpenFiles == 0 && cSearches == 0 && pNext == null && pPrev == null
    {
      this.disc := disc;
      cOpenFiles, cSearches, pNext, pPrev := 0, 0, null, null;
    }
  }

  ghost function Nth(vs: seq<VolData>, i: int): VolData? {
    if 0 <= i < |vs| then vs[i] else null
  }

  /** The links run through the volumes in order, forwards and backwards, and end there. */
  ghost predicate Linked(first: VolData?, vs: seq<VolData>)
    reads vs`pNext, vs`pPrev
  {
    first == Nth(vs, 0) && forall i | 0 <= i < |vs| :: LinkedAt(vs, i)
  }

  ghost predicate LinkedAt(vs: seq<VolData>, i: nat)
    requires i < |vs|
    reads vs`pNext, vs`pPrev
  {
    vs[i].pNext == Nth(vs, i + 1) && vs[i].pPrev == Nth(vs, i - 1)
  }

  ghost predicate Distinct(vs: seq<VolData>) {
    forall i, j | 0 <= i < j < |vs| :: vs[i] != vs[j]
  }

  /** The counters are those of the books. */
  ghost predicate Counted(vs: seq<VolData>, l: Ledger<VolData>)
    reads vs`cOpenFiles, vs`cSearches
  {
    forall v <- vs ::
      && v in l.cOpenFiles && v.cOpenFiles == l.cOpenFiles[v]
      && v in l.cSearches && v.cSearches == l.cSearches[v]
  }

  class ServerData {
    var pFirstVolume: VolData?
    /** The volumes in the list. */
    ghost var volumes: seq<VolData>
    /** Everything that was done so far. */
    ghost var log: seq<Event>

    constructor ()
      ensures Valid() && log == [] && volumes == []
    {
      pFirstVolume, volumes, log := null, [], [];
    }

    ghost predicate Valid()
      reads this, volumes
    {
      && Proper(log) && volumes == Replay(log).list && Distinct(volumes)
      && Linked(pFirstVolume, volumes) && Counted(volumes, Replay(log))
    }

    /** The link step of attachVolume. */
    method Link(vol: VolData)
      requires vol !in volumes && Distinct(volumes) && Linked(pFirstVolume, volumes)
      modifies this`pFirstVolume, vol`pNext, vol`pPrev, volumes`pPrev
      ensures Linked(pFirstVolume, [vol] + volumes)
    {
      assert forall i | 0 < i < |volumes| :: volumes[i] != volumes[0];
      hide Distinct;
      ghost var all := [vol] + volumes;
      vol.pNext := pFirstVolume;
      vol.pPrev := null;
      if vol.pNext != null {
        vol.pNext.pPrev := vol;
      }
      pFirstVolume := vol;
      forall i | 0 <= i < |all|
        ensures LinkedAt(all, i)
      {
        assert i > 0 ==> old(LinkedAt(volumes, i - 1));
      }
    }

    /** The unlink step of detachVolume. */
    method Unlink(vol: VolData)
      requires vol in volumes && Distinct(volumes) && Linked(pFirstVolume, volumes)
      modifies this`pFirstVolume, volumes`pNext, volumes`pPrev
      ensures Linked(pFirstVolume, Without(volumes, vol))
    {
      hide Distinct, Without;
      ghost var k := PlaceOf(volumes, vol);
      assert LinkedAt(volumes, k);
      if vol.pNext != null {
        vol.pNext.pPrev := vol.pPrev;
      }
      if vol.pPrev != null {
        vol.pPrev.pNext := vol.pNext;
      } else {
        pFirstVolume := vol.pNext;
      }
      forall i | 0 <= i < |volumes|
        ensures BridgedAt(volumes, k, i)
      {
        assert old(LinkedAt(volumes, i));
      }
      BridgedIsLinked(pFirstVolume, volumes, k);
    }

    /** The end of attachVolume: the new volume becomes the first. */
    method Enlist(vol: VolData)
      requires Valid() && vol !in volumes && vol.cOpenFiles == 0 && vol.cSearches == 0
      modifies this, vol`pNext, vol`pPrev, volumes`pPrev
      ensures Valid() && log == old(log) + [Op.Attach(vol)] && volumes == [vol] + old(volumes)
    {
      Attached(log, vol, volumes);
      Link(vol);
      hide Linked, Distinct, Proper, Replay;
      volumes := [vol] + volumes;
      log := log + [Op.Attach(vol)];
    }

    /** detachVolume: refused while files or searches are open, unless it is forced. */
    method Detach(vol: VolData, force: bool) returns (rc: ApiRet)
      requires Valid() && vol in volumes
      modifies this, volumes`pNext, volumes`pPrev
      ensures Valid() && log == old(log) + [Op.Detach(vol, force)]
      ensures rc == if !force && (vol.cOpenFiles != 0 || vol.cSearches != 0) then DriveLocked else NoError
      ensures rc == NoError ==> volumes == Without(old(volumes), vol)
      ensures rc != NoError ==>
                && volumes == old(volumes) && pFirstVolume == old(pFirstVolume)
                && forall v <- volumes :: v.pNext == old(v.pNext) && v.pPrev == old(v.pPrev)
    {
      hide Linked, Distinct, Proper, Replay, Without;
      Detached(log, vol, volumes, force);
      assert forall v <- Without(volumes, vol) :: v in volumes by { WithoutExact(volumes, vol); }
      if vol.cOpenFiles != 0 && !force {
        log := log + [Op.Detach(vol, force)];
        return DriveLocked;
      }
      if vol.cSearches != 0 && !force {
        log := log + [Op.Detach(vol, force)];
        return DriveLocked;
      }
      Unlink(vol);
      volumes := Without(volumes, vol);
      log := log + [Op.Detach(vol, force)];
      return NoError;
    }
  }

  /** Where a volume is in the list, and that its neighbours are nowhere else. */
  lemma PlaceOf(vs: seq<VolData>, vol: VolData) returns (k: nat)
    requires vol in vs && Distinct(vs)
    ensures k < |vs| && vs[k] == vol && Without(vs, vol) == vs[..k] + vs[k + 1..]
    ensures forall i | 0 <= i < |vs| :: vs[i] == Nth(vs, k - 1) ==> i == k - 1
    ensures forall i | 0 <= i < |vs| :: vs[i] == Nth(vs, k + 1) ==> i == k + 1
  {
    k :| 0 <= k < |vs| && vs[k] == vol;
    WithoutAt(vs, k);
  }

  /** The links run past the k-th volume. */
  ghost predicate Bridged(first: VolData?, vs: seq<VolData>, k: nat)
    requires k < |vs|
    reads vs`pNext, vs`pPrev
  {
    first == Nth(vs, if k == 0 then 1 else 0) && forall i | 0 <= i < |vs| :: BridgedAt(vs, k, i)
  }

  ghost predicate BridgedAt(vs: seq<VolData>, k: nat, i: nat)
    requires i < |vs|
    reads vs`pNext, vs`pPrev
  {
    && vs[i].pNext == Nth(vs, if i + 1 == k then i + 2 else i + 1)
    && vs[i].pPrev == Nth(vs, if i - 1 == k then i - 2 else i - 1)
  }

  lemma BridgedIsLinked(first: VolData?, vs: seq<VolData>, k: nat)
    requires k < |vs| && Bridged(first, vs, k)
    ensures Linked(first, vs[..k] + vs[k + 1..])
  {
    var rest := vs[..k] + vs[k + 1..];
    NthOfRest(vs, k, rest, 0);
    forall i | 0 <= i < |rest|
      ensures LinkedAt(rest, i)
    {
      NthOfRest(vs, k, rest, i - 1);
      NthOfRest(vs, k, rest, i);
      NthOfRest(vs, k, rest, i + 1);
      assert BridgedAt(vs, k, if i < k then i else i + 1);
    }
  }

  lemma NthOfRest(vs: seq<VolData>, k: nat, rest: seq<VolData>, i: int)
    requires k < |vs| && rest == vs[..k] + vs[k + 1..]
    ensures |rest| == |vs| - 1
    ensures Nth(rest, i) == Nth(vs, if i < k then i else i + 1)
  {
  }

  /** One more operation in the log. */
  lemma Appended(log: seq<Event>, op: Event)
    ensures Replay(log + [op]) == Entered(Replay(log), op)
    ensures Proper(log + [op]) <==> Proper(log) && Allowed(log, op)
  {
    assert (log + [op])[..|log|] == log;
  }

  /** The books after attaching a new volume. */
  lemma Attached(log: seq<Event>, vol: VolData, vs: seq<VolData>)
    requires Proper(log) && vs == Replay(log).list && Counted(vs, Replay(log)) && Distinct(vs)
    requires vol !in vs && vol.cOpenFiles == 0 && vol.cSearches == 0
    ensures var log' := log + [Op.Attach(vol)];
            Proper(log') && [vol] + vs == Replay(log').list && Counted([vol] + vs, Replay(log')) &&
            Distinct([vol] + vs)
  {
    Appended(log, Op.Attach(vol));
  }

  /** The books after an attempt to detach a volume. */
  lemma Detached(log: seq<Event>, vol: VolData, vs: seq<VolData>, force: bool)
    requires Proper(log) && vs == Replay(log).list && Counted(vs, Replay(log)) && Distinct(vs) && vol in vs
    ensures var log' := log + [Op.Detach(vol, force)];
            var vs' := if force || (vol.cOpenFiles == 0 && vol.cSearches == 0) then Without(vs, vol) else vs;
            Proper(log') && vs' == Replay(log').list && Counted(vs', Replay(log')) && Distinct(vs')
  {
    hide Proper, Replay;
    Appended(log, Op.Detach(vol, force));
    WithoutExact(vs, vol);
    WithoutDistinct(vs, vol);
  }
}
