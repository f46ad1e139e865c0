/**
 * The capture manager itself (backend/capture.py): one method per stretch between awaits, each
 * shown to be the step of that name.
 */
module CaptureManagers {
  import opened Captures
  import opened Optional

  /** Where the event loop's coroutines for one capture stand. */
  datatype Coroutines = Coroutines(launching: bool, monitor: Option<Phase>, cancelled: bool,
                                   deletions: map<nat, Deletion>, session: bool, interrupted: bool)

  datatype Outcome = LimitExceeded | AlreadyCapturing(holder: Id) | Registered

  function NamesOf(sets: map<Id, set<Link>>, id: Id): set<Link> { if id in sets then sets[id] else {} }

  function RowOf(rows: map<Id, Status>, id: Id): Option<Status> { if id in rows then Some(rows[id]) else None }

  /** The same tables, with the coroutines elsewhere. */
  function Moved(cell: Cell, c: Coroutines): Cell {
    cell.(launching := c.launching, monitor := c.monitor, cancelled := c.cancelled,
          deletions := c.deletions, session := c.session, interrupted := c.interrupted)
  }

  function CoroutinesOf(cell: Cell): Coroutines {
    Coroutines(cell.launching, cell.monitor, cell.cancelled, cell.deletions, cell.session, cell.interrupted)
  }

  lemma EndIsAStep(c: Cell, id: Id, status: Status)
    requires c.monitor == Some(Collecting) || (c.monitor == Some(Waiting) && status.Failed?)
    requires status in {Completed, Failed} && (c.cancelled ==> status.Failed?)
    ensures StepIn(c, Event.Monitor(id, status.Completed?)) == Ended(c.(cancelled := false), status)
  {
    hide Ended;
    assert !c.cancelled ==> c == c.(cancelled := false);
  }

  lemma InterruptIsAStep(c: Cell, id: Id)
    requires c.info.status.Running? && c.listed
    ensures var stopping := c.(info := c.info.(status := Stopping)).(row := Some(Stopping));
            StepIn(c, Event.Stop(id)) == Moved(stopping, CoroutinesOf(stopping).(interrupted := c.process))
  {
  }

  function Interrupted(i: Info): Info { if Active(i.status) then i.(status := Failed) else i }

  predicate IsRestored(c: Cell, saved: Info) {
    Restored(c) && c.info == Interrupted(saved) && (Active(saved.status) ==> c.row == Some(Failed))
  }

  class CaptureManager {
    // Every record object by its id: a coroutine that holds one goes on changing it after the
    // manager has stopped listing it in `captures`.
    var infos: map<Id, Info>
    var captures: set<Id>
    var processes: set<Id>
    var tasks: set<Id>
    var interfaceSets: map<Id, set<Link>>
    var rows: map<Id, Status>
    ghost var loop: map<Id, Coroutines>

    ghost predicate Unused(id: Id)
      reads this
    {
      id !in captures && id !in processes && id !in tasks && id !in interfaceSets
    }

    ghost predicate Valid()
      reads this
    {
      loop.Keys == infos.Keys && forall id :: id !in infos ==> Unused(id)
    }

    ghost function CellOf(id: Id): Cell
      requires Valid() && id in infos
      reads this
    {
      var c := loop[id];
      Cell(infos[id], id in captures, NamesOf(interfaceSets, id),
           RowOf(rows, id), id in processes, id in tasks,
           c.launching, c.monitor, c.cancelled, c.deletions, c.session, c.interrupted)
    }

    ghost function Now(): World
      requires Valid()
      reads this
    {
      map id | id in infos :: CellOf(id)
    }

    constructor (rows: map<Id, Status>)
      ensures Valid() && infos == map[] && this.rows == rows
    {
      infos, captures, processes, tasks, interfaceSets, loop := map[], {}, {}, {}, map[], map[];
      this.rows := rows;
    }

    /** No capture but this one has changed. */
    twostate predicate Local(id: Id)
      requires old(Valid()) && Valid()
      reads this
    {
      && infos.Keys == old(infos).Keys + {id}
      && forall k :: k in old(infos) && k != id ==> CellOf(k) == old(CellOf(k))
    }

    twostate lemma Became(id: Id)
      requires old(Valid()) && Valid() && Local(id)
      ensures id in infos && Now() == old(Now())[id := CellOf(id)]
      ensures id in old(infos) ==> id in old(Now()) && old(Now())[id] == old(CellOf(id))
    {
      hide Valid, CellOf;
      var was, is' := old(Now()), Now();
      forall k | k in infos ensures is'[k] == was[id := CellOf(id)][k] {
        assert k != id ==> k in was && was[k] == old(CellOf(k));
      }
    }

    // --- one table at a time ---------------------------------------------------------------

    method SetStatus(id: Id, status: Status)
      requires Valid() && id in infos
      modifies `infos
      ensures Valid() && id in infos && Local(id)
      ensures CellOf(id) == old(CellOf(id)).(info := old(CellOf(id)).info.(status := status))
    {
      infos := infos[id := infos[id].(status := status)];
    }

    /** `_persist`. */
    method Persist(id: Id)
      requires Valid() && id in infos
      modifies `rows
      ensures Valid() && id in infos && Local(id)
      ensures CellOf(id) == old(CellOf(id)).(row := Some(old(CellOf(id)).info.status))
    {
      rows := rows[id := infos[id].status];
    }

    method DeleteRow(id: Id)
      requires Valid() && id in infos
      modifies `rows
      ensures Valid() && id in infos && Local(id)
      ensures CellOf(id) == old(CellOf(id)).(row := None)
    {
      rows := rows - {id};
    }

    method PutProcess(id: Id)
      requires Valid() && id in infos
      modifies `processes
      ensures Valid() && id in infos && Local(id)
      ensures CellOf(id) == old(CellOf(id)).(process := true)
    {
      processes := processes + {id};
    }

    method PopProcess(id: Id) returns (had: bool)
      requires Valid() && id in infos
      modifies `processes
      ensures Valid() && id in infos && Local(id)
      ensures CellOf(id) == old(CellOf(id)).(process := false)
      ensures had == old(CellOf(id)).process
    {
      had := id in processes;
      processes := processes - {id};
    }

    method PutTask(id: Id)
      requires Valid() && id in infos
      modifies `tasks
      ensures Valid() && id in infos && Local(id)
      ensures CellOf(id) == old(CellOf(id)).(task := true)
    {
      tasks := tasks + {id};
    }

    method PopTask(id: Id) returns (had: bool)
      requires Valid() && id in infos
      modifies `tasks
      ensures Valid() && id in infos && Local(id)
      ensures CellOf(id) == old(CellOf(id)).(task := false)
      ensures had == old(CellOf(id)).task
    {
      had := id in tasks;
      tasks := tasks - {id};
    }

    method PopSet(id: Id)
      requires Valid() && id in infos
      modifies `interfaceSets
      ensures Valid() && id in infos && Local(id)
      ensures CellOf(id) == old(CellOf(id)).(names := {})
    {
      interfaceSets := interfaceSets - {id};
    }

    method Unlist(id: Id)
      requires Valid() && id in infos
      modifies `captures
      ensures Valid() && id in infos && Local(id)
      ensures CellOf(id) == old(CellOf(id)).(listed := false)
    {
      captures := captures - {id};
    }

    ghost method Move(id: Id, c: Coroutines)
      requires Valid() && id in infos
      modifies `loop
      ensures Valid() && id in infos && Local(id)
      ensures CellOf(id) == Moved(old(CellOf(id)), c)
    {
      loop := loop[id := c];
    }

    /** Listed at once, and written down. */
    method Add(id: Id, info: Info)
      requires Valid() && id !in infos
      modifies this
      ensures Valid() && id in infos && Local(id) && CellOf(id) == NewCell(info).(names := {})
    {
      assert Unused(id);
      infos, captures, rows := infos[id := info], captures + {id}, rows[id := info.status];
      loop := loop[id := Coroutines(info.status.Running?, None, false, map[], false, false)];
    }

    method PutSet(id: Id, names: set<Link>)
      requires Valid() && id in infos
      modifies `interfaceSets
      ensures Valid() && id in infos && Local(id)
      ensures CellOf(id) == old(CellOf(id)).(names := names)
    {
      interfaceSets := interfaceSets[id := names];
    }

    /** A record made, and not listed yet. */
    method Make(id: Id, info: Info)
      requires Valid() && id !in infos
      modifies `infos, `loop
      ensures Valid() && id in infos && Local(id)
      ensures CellOf(id) ==
              Cell(info, false, {}, RowOf(rows, id), false, false, false, None, false, map[], false, false)
    {
      assert Unused(id);
      infos := infos[id := info];
      loop := loop[id := Coroutines(false, None, false, map[], false, false)];
    }

    method List(id: Id)
      requires Valid() && id in infos
      modifies `captures
      ensures Valid() && id in infos && Local(id)
      ensures CellOf(id) == old(CellOf(id)).(listed := true)
    {
      captures := captures + {id};
    }

    /** These records, and no others, stand as a restart leaves them. */
    ghost predicate RestoredAll(saved: map<Id, Info>)
      requires Valid()
      reads this
    {
      forall id :: id in infos ==> id in saved && IsRestored(CellOf(id), saved[id])
    }

    /** `_restore`: every saved record listed, and what a restart interrupted has failed. */
    method Restore(saved: map<Id, Info>)
      requires Valid() && infos == map[]
      modifies this
      ensures Valid() && Now().Keys == saved.Keys && Initial(Now())
      ensures forall id :: id in saved ==> IsRestored(Now()[id], saved[id])
    {
      assert RestoredAll(saved);
      hide Valid, Now, CellOf, IsRestored, Initial, RestoredAll;
      var left := saved.Keys;
      while left != {}
        invariant Valid() && left <= saved.Keys && infos.Keys == saved.Keys - left
        invariant RestoredAll(saved)
        decreases |left|
      {
        var id :| id in left;
        OneLess(saved.Keys, left, id);
        left := left - {id};
        RestoreNext(saved, id);
      }
      AllRestored(saved);
    }

    static lemma OneLess(all: set<Id>, left: set<Id>, id: Id)
      requires left <= all && id in left
      ensures all - left + {id} == all - (left - {id}) && |left - {id}| < |left| && id !in all - left
    {
    }

    lemma AllRestored(saved: map<Id, Info>)
      requires Valid() && infos.Keys == saved.Keys && RestoredAll(saved)
      ensures Now().Keys == saved.Keys && Initial(Now())
      ensures forall id :: id in saved ==> IsRestored(Now()[id], saved[id])
    {
      hide Valid, CellOf, Interrupted;
      forall id | id in saved ensures IsRestored(Now()[id], saved[id]) {
        assert Now()[id] == CellOf(id);
      }
    }

    method RestoreNext(saved: map<Id, Info>, id: Id)
      requires Valid() && id !in infos && id in saved && RestoredAll(saved)
      modifies this
      ensures Valid() && infos.Keys == old(infos.Keys) + {id} && RestoredAll(saved)
    {
      hide Valid, CellOf, IsRestored;
      RestoreRow(id, saved[id]);
    }

    method RestoreRow(id: Id, info: Info)
      requires Valid() && id !in infos
      modifies this
      ensures Valid() && Local(id) && IsRestored(CellOf(id), info)
    {
      hide Valid, CellOf;
      Make(id, Interrupted(info));
      if Active(info.status) {
        Persist(id);
      }
      List(id);
    }

    // --- the stretches ----------------------------------------------------------------------

    /** `active_count`. */
    method ActiveCount() returns (n: nat)
      requires Valid()
      ensures n == |ActiveIds(Now())|
    {
      n := 0;
      var left := captures;
      ghost var counted: set<Id> := {};
      while left != {}
        invariant left <= captures
        invariant n == |counted|
        invariant counted == set id | id in captures && id !in left && id in infos && Active(infos[id].status)
        decreases |left|
      {
        var id :| id in left;
        left := left - {id};
        if Active(infos[id].status) {
          n := n + 1;
          counted := counted + {id};
        }
      }
      assert counted == ActiveIds(Now());
    }

    /** The check for captures already reading a wanted link. */
    method Holder(server: Server, wanted: Links) returns (found: Option<Id>)
      requires Valid()
      ensures found.Some? ==> found.value in Now() && HeldOn(Now()[found.value], server, wanted)
      ensures found.None? ==> forall id :: id in Now() ==> !HeldOn(Now()[id], server, wanted)
    {
      var left := captures;
      while left != {}
        invariant left <= captures
        invariant forall id :: id in captures && id !in left ==> !HeldOn(CellOf(id), server, wanted)
        decreases |left|
      {
        var id :| id in left;
        left := left - {id};
        if !Active(infos[id].status) || infos[id].server != server {
          continue;
        }
        var theirs := Covered(infos[id].iface, NamesOf(interfaceSets, id));
        if Overlap(wanted, theirs) == Only({}) {
          continue;
        }
        return Some(id);
      }
      return None;
    }

    /** From the limit check to the registration: the stretch that must not await. */
    method Start(id: Id, server: Server, iface: Link, interfaces: set<Link>, maximum: int)
        returns (outcome: Outcome)
      requires Valid() && id !in infos
      modifies this
      ensures Valid() && Now() == Step(old(Now()), Event.Start(id, server, iface, interfaces, maximum))
      ensures outcome.LimitExceeded? <==> |ActiveIds(old(Now()))| >= maximum
      ensures outcome.AlreadyCapturing? ==>
                && outcome.holder in old(Now())
                && HeldOn(old(Now())[outcome.holder], server, Covered(iface, interfaces))
      ensures outcome.Registered? <==>
                !Refused(old(Now()), server, Covered(iface, interfaces), maximum)
    {
      hide Valid, Now, CellOf, HeldOn, ActiveIds;
      var active := ActiveCount();
      if active >= maximum {
        return LimitExceeded;
      }
      var holder := Holder(server, Covered(iface, interfaces));
      if holder.Some? {
        return AlreadyCapturing(holder.value);
      }
      assert !Refused(Now(), server, Covered(iface, interfaces), maximum);
      Enrol(id, server, iface, interfaces);
      return Registered;
    }

    method Enrol(id: Id, server: Server, iface: Link, interfaces: set<Link>)
      requires Valid() && id !in infos
      modifies this
      ensures Valid() && Now() == old(Now())[id := NewCell(Info(server, iface, interfaces, Running))]
    {
      hide Valid, Now, CellOf;
      Add(id, Info(server, iface, interfaces, Running));
      if interfaces != {} {
        PutSet(id, interfaces);
      }
      assert CellOf(id) == NewCell(Info(server, iface, interfaces, Running));
      Became(id);
    }

    /** The end of `import_upload`. */
    method AddUpload(id: Id)
      requires Valid() && id !in infos
      modifies this
      ensures Valid() && Now() == Step(old(Now()), Event.Upload(id))
    {
      hide Valid, CellOf;
      Add(id, Info("", "", {}, Completed));
      Became(id);
    }

    /** The launch raised: the record closes itself. */
    method LaunchFails(id: Id)
      requires Valid() && id in infos && CellOf(id).launching
      modifies this
      ensures Valid() && Now() == Step(old(Now()), Event.LaunchFails(id))
    {
      hide Valid, Now, CellOf;
      SetStatus(id, Failed);
      Persist(id);
      Move(id, CoroutinesOf(CellOf(id)).(launching := false));
      assert CellOf(id) == StepIn(old(CellOf(id)), Event.LaunchFails(id));
      Became(id);
    }

    /** The launch returned a session: registered, with a monitor. */
    method LaunchWorks(id: Id)
      requires Valid() && id in infos && CellOf(id).launching
      modifies this
      ensures Valid() && Now() == Step(old(Now()), Event.LaunchWorks(id))
    {
      hide Valid, Now, CellOf;
      PutProcess(id);
      PutTask(id);
      Move(id, CoroutinesOf(CellOf(id)).(launching := false, session := true, monitor := Some(Created)));
      assert CellOf(id) == StepIn(old(CellOf(id)), Event.LaunchWorks(id));
      Became(id);
    }

    /** What the tables say of one capture. */
    lemma Tables(id: Id)
      requires Valid()
      ensures id in Now() <==> id in infos
      ensures id in captures <==> id in Now() && Now()[id].listed
      ensures id in infos ==> Now()[id] == CellOf(id) && CellOf(id).info == infos[id]
      ensures id in infos ==> (CellOf(id).process <==> id in processes)
    {
    }

    /** A running record put down as stopping, and whether a session is there to be interrupted. */
    method Interrupt(id: Id) returns (interrupts: bool)
      requires Valid() && id in infos && CellOf(id).info.status.Running? && CellOf(id).listed
      modifies this
      ensures Valid() && Local(id) && CellOf(id) == StepIn(old(CellOf(id)), Event.Stop(id))
      ensures interrupts == old(CellOf(id)).process
    {
      hide Valid, CellOf, Now, StepIn, Moved, CoroutinesOf;
      Tables(id);
      InterruptIsAStep(CellOf(id), id);
      interrupts := id in processes;
      SetStatus(id, Stopping);
      Persist(id);
      Move(id, CoroutinesOf(CellOf(id)).(interrupted := interrupts));
    }

    /** `stop` up to its await; what it returns says whether it interrupts tcpdump next. */
    method Stop(id: Id) returns (known: bool, interrupts: bool)
      requires Valid()
      modifies this
      ensures Valid() && (known <==> id in old(Now()) && old(Now())[id].listed)
      ensures Now() == if known then Step(old(Now()), Event.Stop(id)) else old(Now())
      ensures interrupts <==> known && old(Now())[id].info.status.Running? && old(Now())[id].process
    {
      Tables(id);
      hide Valid, Now, CellOf;
      if id !in captures {
        return false, false;
      }
      if infos[id].status != Running {
        assert Now()[id := Now()[id]] == Now();
        return true, false;
      }
      interrupts := Interrupt(id);
      Became(id);
      known := true;
    }

    /** Popped from the tables and its monitor cancelled, before anything is awaited. */
    method BeginDelete(id: Id, ghost token: nat) returns (holds: bool, waits: bool)
      requires Valid() && id in infos && token !in CellOf(id).deletions
      modifies this
      ensures Valid() && Now() == Step(old(Now()), Event.DeleteBegins(id, token))
      ensures holds == old(CellOf(id)).process && waits == old(CellOf(id)).task
    {
      hide Valid, Now, CellOf;
      holds := PopProcess(id);
      waits := PopTask(id);
      ghost var c := CoroutinesOf(CellOf(id));
      Move(id, c.(cancelled := c.cancelled || (waits && c.monitor.Some?),
                  deletions := c.deletions[token := Deletion(waits, holds)]));
      assert CellOf(id) == StepIn(old(CellOf(id)), Event.DeleteBegins(id, token));
      Became(id);
    }

    /** The row, the interface set and the record go. */
    method EndDelete(id: Id, ghost token: nat)
      requires Valid() && id in infos && ReadyIn(CellOf(id), Event.DeleteEnds(id, token))
      modifies this
      ensures Valid() && Now() == Step(old(Now()), Event.DeleteEnds(id, token))
    {
      hide Valid, Now, CellOf;
      DeleteRow(id);
      PopSet(id);
      Unlist(id);
      ghost var c := CoroutinesOf(CellOf(id));
      Move(id, c.(deletions := c.deletions - {token}));
      assert CellOf(id) == StepIn(old(CellOf(id)), Event.DeleteEnds(id, token));
      Became(id);
    }

    // --- the monitor ------------------------------------------------------------------------

    /** Its first line looks the record up, and raises when a delete has been faster. */
    method MonitorBegins(id: Id) returns (found: bool)
      requires Valid() && id in infos && CellOf(id).monitor == Some(Created) && !CellOf(id).cancelled
      modifies this
      ensures Valid() && Now() == Step(old(Now()), Event.Monitor(id, true))
      ensures found <==> old(CellOf(id)).listed
    {
      found := id in captures;
      assert found == CellOf(id).listed;
      hide Valid, Now, CellOf;
      Move(id, CoroutinesOf(CellOf(id)).(monitor := if found then Some(Waiting) else None));
      assert CellOf(id) == StepIn(old(CellOf(id)), Event.Monitor(id, true));
      Became(id);
    }

    method MonitorExited(id: Id)
      requires Valid() && id in infos && CellOf(id).monitor == Some(Waiting) && !CellOf(id).cancelled
      modifies this
      ensures Valid() && Now() == Step(old(Now()), Event.Monitor(id, true))
    {
      hide Valid, Now, CellOf;
      SetStatus(id, Transferring);
      Persist(id);
      Move(id, CoroutinesOf(CellOf(id)).(monitor := Some(Collecting)));
      assert CellOf(id) == StepIn(old(CellOf(id)), Event.Monitor(id, true));
      Became(id);
    }

    /** The terminal status and the `finally` up to its await, if there is a session to close. */
    method End(id: Id, status: Status) returns (closes: bool)
      requires Valid() && id in infos
      modifies this
      ensures Valid() && id in infos && Local(id)
      ensures CellOf(id) == Ended(old(CellOf(id)).(cancelled := false), status)
      ensures closes <==> old(CellOf(id)).process
    {
      hide Valid, CellOf;
      SetStatus(id, status);
      closes := PopProcess(id);
      ghost var c := CoroutinesOf(CellOf(id)).(cancelled := false);
      if closes {
        Move(id, c.(session := false, monitor := Some(Closing)));
      } else {
        Move(id, c);
        Finish(id);
      }
    }

    /** A failure may come at either await of the body, completion at the second, a cancel at both. */
    method MonitorEnds(id: Id, status: Status) returns (closes: bool)
      requires Valid() && id in infos && status in {Completed, Failed}
      requires CellOf(id).monitor == Some(Collecting) || (CellOf(id).monitor == Some(Waiting) && status.Failed?)
      requires CellOf(id).cancelled ==> status.Failed?
      modifies this
      ensures Valid() && Now() == Step(old(Now()), Event.Monitor(id, status.Completed?))
      ensures closes <==> old(CellOf(id)).process
    {
      EndIsAStep(CellOf(id), id, status);
      hide Valid, Now, CellOf, Ended, StepIn;
      closes := End(id, status);
      Became(id);
    }

    /** The last lines of the `finally`. */
    method Finish(id: Id)
      requires Valid() && id in infos
      modifies this
      ensures Valid() && id in infos && Local(id)
      ensures CellOf(id) == Finished(old(CellOf(id)))
    {
      hide Valid, Now, CellOf;
      Persist(id);
      var _ := PopTask(id);
      PopSet(id);
      Move(id, CoroutinesOf(CellOf(id)).(monitor := None));
    }

    method MonitorClosed(id: Id)
      requires Valid() && id in infos && CellOf(id).monitor == Some(Closing) && !CellOf(id).cancelled
      modifies this
      ensures Valid() && Now() == Step(old(Now()), Event.Monitor(id, true))
    {
      Finish(id);
      Became(id);
    }

    /** A cancel delivered before the first line, or while the session is being closed. */
    ghost method MonitorDropped(id: Id)
      requires Valid() && id in infos && CellOf(id).cancelled
      requires CellOf(id).monitor in {Some(Created), Some(Closing)}
      modifies `loop
      ensures Valid() && Now() == Step(old(Now()), Event.Monitor(id, true))
    {
      hide Valid, Now, CellOf;
      Move(id, CoroutinesOf(CellOf(id)).(cancelled := false, monitor := None));
      assert CellOf(id) == StepIn(old(CellOf(id)), Event.Monitor(id, true));
      Became(id);
    }
  }
}
