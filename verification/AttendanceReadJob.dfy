/** Handling one controller event, and draining a controller's queue twenty events at a time. */
module AttendanceReadJobs {
  import opened JobStates
  import opened Bytes
  import opened Wrappers
  import opened Devices
  import opened Framing
  import opened Protocol
  import opened Events
  import opened Attendance
  import opened AttendanceEngines
  import FifoDrain

  const BATCH := 20

  datatype Status = Pending | CommunicationError | FifoEmpty | StorageError | DeleteError

  class AttendanceReadJob {
    const node: byte
    var state: JobState
    var ok: bool
    var status: Status
    var read: nat
    var stored: nat
    var accessEvents: nat
    var rawEvents: nat
    var duplicates: nat
    var failed: nat

    constructor (node: byte)
      ensures this.node == node && state == Queued && Clean() && read == 0
    {
      this.node := node;
      state, ok, status := Queued, false, Pending;
      read, stored, accessEvents, rawEvents, duplicates, failed := 0, 0, 0, 0, 0, 0;
    }

    /** Everything read so far was stored. */
    ghost predicate Clean()
      reads this
    {
      read == stored == accessEvents + rawEvents && failed == 0 && duplicates <= read
    }

    method NoteRead(access: bool)
      modifies this`read, this`accessEvents, this`rawEvents
      ensures read == old(read) + 1
      ensures accessEvents == old(accessEvents) + (if access then 1 else 0)
      ensures rawEvents == old(rawEvents) + (if access then 0 else 1)
    {
      read := read + 1;
      if access {
        accessEvents := accessEvents + 1;
      } else {
        rawEvents := rawEvents + 1;
      }
    }

    /** Counts a handled event; one that was not stored, or not removed, ends the job. */
    method NoteHandled(isStored: bool, duplicate: bool, removed: bool)
      modifies this`stored, this`failed, this`duplicates, this`state, this`ok, this`status
      ensures stored == old(stored) + (if isStored then 1 else 0)
      ensures failed == old(failed) + (if isStored then 0 else 1)
      ensures duplicates == old(duplicates) + (if duplicate then 1 else 0)
      ensures if isStored && removed then state == old(state) && ok == old(ok) && status == old(status)
              else state == Completed && !ok && status == if isStored then DeleteError else StorageError
    {
      if isStored {
        stored := stored + 1;
      } else {
        failed := failed + 1;
      }
      if duplicate {
        duplicates := duplicates + 1;
      }
      if !isStored || !removed {
        Finish(false, if !isStored then StorageError else DeleteError);
      }
    }

    method Finish(ok: bool, status: Status)
      modifies this`state, this`ok, this`status
      ensures state == Completed && this.ok == ok && this.status == status
    {
      state, this.ok, this.status := Completed, ok, status;
    }
  }

  /** Every event that left a queue is in the log. */
  ghost predicate RemovedAreLogged(fifos: map<byte, Fifo>, log: seq<Row>) {
    forall n, i :: n in fifos && 0 <= i < fifos[n].removed && i < |fifos[n].queued| && fifos[n].queued[i] != [] ==>
      Logged(log, n, fifos[n].queued[i])
  }

  lemma StillLogged(before: map<byte, Fifo>, after: map<byte, Fifo>, log: seq<Row>, log': seq<Row>, node: byte,
                    popped: bool)
    requires RemovedAreLogged(before, log) && FifosAfter(before, after, node, popped)
    requires forall n :: n in before ==> before[n].WellFormed()
    requires log <= log'
    requires popped ==>
      && node in before && before[node].removed < |before[node].queued|
      && (before[node].queued[before[node].removed] != [] ==> Logged(log', node, before[node].queued[before[node].removed]))
    ensures RemovedAreLogged(after, log')
  {
    forall n, i | n in after && 0 <= i < after[n].removed && i < |after[n].queued| && after[n].queued[i] != []
      ensures Logged(log', n, after[n].queued[i])
    {
      assert before[n].Becomes(after[n], popped && n == node);
      if i < before[n].removed {
        assert after[n].queued[i] == before[n].queued[i];
        assert Logged(log, n, before[n].queued[i]);
        var k :| 0 <= k < |log| && log[k].node == n && log[k].raw == after[n].queued[i];
        assert log'[k] == log[k];
      }
    }
  }

  lemma HandleGrowsLog(env: Env, w: World, r: Reading, now: Stamp, f: Faults)
    ensures w.log <= Handle(env, w, r, now, f).w.log
  {
  }

  // ---- a line and a store that work ----

  /** Every 25H and every 37H is answered until the queue is empty, and no event comes in meanwhile. */
  predicate Drains(script: seq<Turn>, node: byte, fifo: Fifo)
    decreases |fifo.queued| - fifo.removed
  {
    && Offers(script, node, fifo)
    && (fifo.Empty() || (Removes(script[1..], node) && Drains(script[2..], node, fifo.Pop())))
  }

  predicate Draining(node: byte, fifos: map<byte, Fifo>, script: seq<Turn>) {
    node in fifos && fifos[node].WellFormed() && Drains(script, node, fifos[node])
  }

  /** As many events left the queue as were read, and the line goes on answering. */
  predicate OnCourse(node: byte, read0: nat, fifos0: map<byte, Fifo>, read: nat, fifos: map<byte, Fifo>,
                     script: seq<Turn>)
  {
    && node in fifos0 && Draining(node, fifos, script)
    && read0 <= read && fifos[node] == fifos0[node].(removed := fifos0[node].removed + read - read0)
  }

  /** All of them did. */
  predicate Drained(node: byte, read0: nat, fifos0: map<byte, Fifo>, read: nat, fifos: map<byte, Fifo>) {
    && node in fifos0 && node in fifos && fifos[node] == fifos0[node].(removed := |fifos0[node].queued|)
    && read == read0 + |fifos0[node].queued| - fifos0[node].removed
  }

  lemma OneDrained(node: byte, read: nat, fifos: map<byte, Fifo>, script: seq<Turn>, after: map<byte, Fifo>,
                   later: seq<Turn>)
    requires Draining(node, fifos, script) && !fifos[node].Empty()
    requires after == fifos[node := fifos[node].Pop()] && script != [] && script[1..] != [] && later == script[1..][1..]
    ensures OnCourse(node, read, fifos, read + 1, after, later)
  {
    assert script[1..][1..] == script[2..];
  }

  lemma Served(node: byte, fifos: map<byte, Fifo>, script: seq<Turn>)
    requires Draining(node, fifos, script)
    ensures Offers(script, node, fifos[node]) && (!fifos[node].Empty() ==> script != [] && Removes(script[1..], node))
    ensures fifos[node].Empty() ==> fifos[node] == fifos[node].(removed := |fifos[node].queued|)
  {
  }

  class AttendanceReader {
    const bus: Bus
    const proto: Unex721Protocol
    const engine: AttendanceEngine

    constructor (bus: Bus, engine: AttendanceEngine)
      ensures this.bus == bus && this.engine == engine && proto.bus == bus
    {
      this.bus := bus;
      this.engine := engine;
      proto := new Unex721Protocol(bus);
    }

    ghost predicate Valid()
      reads this, proto, bus
    {
      proto.bus == bus && bus.Valid()
    }

    /** Stores an event, if it is not stored yet, and only then removes it from the controller. */
    method HandleControllerEvent(node: byte, frame: seq<byte>)
      returns (stored: bool, duplicate: bool, removed: bool, ghost executed: bool, ghost now: Stamp, ghost f: Faults)
      requires Valid()
      modifies bus, engine, engine.store
      ensures Valid() && bus.tables == old(bus.tables)
      ensures Attendance.Outcome.Outcome(engine.World(), stored, duplicate)
           == Handle(engine.store.env, old(engine.World()), FifoDrain.ReadingOf(node, frame), now, f)
      ensures bus.writes == old(bus.writes) + (if stored then [Request(node, REMOVE_EVENT, [])] else [])
      ensures FifosAfter(old(bus.fifos), bus.fifos, node, executed)
      ensures (removed ==> executed) && (executed ==> stored)
      ensures old(bus.heard) <= bus.heard && (removed || old(bus.heard) < bus.heard ==> !ShortRead(bus.heard, node))
      ensures engine.store.writable && node in old(bus.fifos) && Removes(old(bus.script), node) ==>
        && stored && removed && bus.script == old(bus.script)[1..]
        && bus.fifos == old(bus.fifos)[node := old(bus.fifos)[node].Pop()]
    {
      var r := FifoDrain.ReadingOf(node, frame);
      var clock: Stamp := *;
      now := clock;
      if r.access {
        stored, duplicate, f := engine.OnControllerAccessEvent(r, clock);
      } else {
        stored, duplicate, f := engine.RecordControllerRawEvent(r, clock);
      }
      removed, executed := false, false;
      if !stored {
        NoPop(bus.fifos, node);
        return;
      }
      removed, executed := proto.RemoveOldestEvent(node);
    }

    /** Handles the oldest event of a queue: whatever leaves the queue is in the log. */
    method StoreAndRemove(node: byte, frame: seq<byte>) returns (stored: bool, duplicate: bool, removed: bool)
      requires Valid() && RemovedAreLogged(bus.fifos, engine.store.log)
      requires node in bus.fifos && !bus.fifos[node].Empty() && frame == bus.fifos[node].queued[bus.fifos[node].removed]
      modifies bus, engine, engine.store
      ensures Valid() && bus.tables == old(bus.tables)
      ensures RemovedAreLogged(bus.fifos, engine.store.log)
      ensures removed ==> stored && node in bus.fifos && bus.fifos[node].removed == old(bus.fifos)[node].removed + 1
      ensures old(bus.heard) <= bus.heard && (removed || old(bus.heard) < bus.heard ==> !ShortRead(bus.heard, node))
      ensures engine.store.writable && Removes(old(bus.script), node) ==>
        && stored && removed && bus.script == old(bus.script)[1..]
        && bus.fifos == old(bus.fifos)[node := old(bus.fifos)[node].Pop()]
    {
      ghost var fifos, w := bus.fifos, engine.World();
      ghost var executed, now, f;
      stored, duplicate, removed, executed, now, f := HandleControllerEvent(node, frame);
      HandleGrowsLog(engine.store.env, w, FifoDrain.ReadingOf(node, frame), now, f);
      HandleEffect(engine.store.env, w, FifoDrain.ReadingOf(node, frame), now, f, OfUser(0));
      StillLogged(fifos, bus.fifos, w.log, engine.store.log, node, executed);
      assert fifos[node].Becomes(bus.fifos[node], executed);
    }

    /** The oldest event of the job's queue was read: count it and handle it. */
    method CountAndHandle(job: AttendanceReadJob, frame: seq<byte>) returns (goOn: bool)
      requires Valid() && job.state == Running && job.Clean()
      requires RemovedAreLogged(bus.fifos, engine.store.log)
      requires job.node in bus.fifos && !bus.fifos[job.node].Empty()
      requires frame == bus.fifos[job.node].queued[bus.fifos[job.node].removed]
      modifies bus, job, engine, engine.store
      ensures Valid() && bus.tables == old(bus.tables)
      ensures RemovedAreLogged(bus.fifos, engine.store.log)
      ensures goOn ==>
        && job.state == Running && job.Clean() && job.read == old(job.read) + 1
        && job.node in bus.fifos && bus.fifos[job.node].removed == old(bus.fifos)[job.node].removed + 1
      ensures !goOn ==> job.state == Completed && FailedAfterRead(job)
      ensures old(bus.heard) <= bus.heard
      ensures goOn || old(bus.heard) < bus.heard ==> !ShortRead(bus.heard, job.node)
      ensures engine.store.writable && Removes(old(bus.script), job.node) ==>
        && goOn && bus.script == old(bus.script)[1..]
        && bus.fifos == old(bus.fifos)[job.node := old(bus.fifos)[job.node].Pop()]
    {
      job.NoteRead(DecodeEvent(frame).code == Some(NORMAL_ACCESS));
      var stored, duplicate, removed := StoreAndRemove(job.node, frame);
      job.NoteHandled(stored, duplicate, removed);
      goOn := stored && removed;
    }

    /** Reads the oldest event; without one the job is over. */
    method ReadNext(job: AttendanceReadJob) returns (event: Option<seq<byte>>)
      requires Valid() && job.state == Running && job.Clean()
      requires RemovedAreLogged(bus.fifos, engine.store.log)
      modifies bus, job
      ensures Valid() && bus.tables == old(bus.tables)
      ensures RemovedAreLogged(bus.fifos, engine.store.log) && Grown(old(bus.fifos), bus.fifos)
      ensures event.Some? ==>
        && job.state == Running && job.Clean() && job.read == old(job.read)
        && job.node in bus.fifos && !bus.fifos[job.node].Empty()
        && event.value == bus.fifos[job.node].queued[bus.fifos[job.node].removed]
        && !ShortRead(bus.heard, job.node)
      ensures event.None? ==>
        job.state == Completed && job.read == old(job.read) && Ended(job, bus.fifos, old(bus.heard), bus.heard)
      ensures old(bus.heard) <= bus.heard
      ensures Refuses(old(bus.script)) && job.node in old(bus.tables) ==> event.None? && job.status == FifoEmpty
      ensures job.node in old(bus.fifos) && Offers(old(bus.script), job.node, old(bus.fifos)[job.node]) ==>
        && bus.fifos == old(bus.fifos) && bus.script == old(bus.script)[1..]
        && (event.None? <==> bus.fifos[job.node].Empty()) && (event.None? ==> job.status == FifoEmpty)
    {
      ghost var fifos := bus.fifos;
      var responded;
      responded, event := proto.GetOldestEvent(job.node);
      StillLogged(fifos, bus.fifos, engine.store.log, engine.store.log, 0, false);
      if !responded {
        job.failed := job.failed + 1;
        job.Finish(false, CommunicationError);
        return None;
      }
      if event.None? {
        job.Finish(true, FifoEmpty);
      }
    }

    /** One event of the drain: read, count, handle. The drain ends well exactly on a short answer,
        whatever is queued. */
    method DrainOne(job: AttendanceReadJob) returns (goOn: bool)
      requires Valid() && job.state == Running && job.Clean()
      requires RemovedAreLogged(bus.fifos, engine.store.log)
      modifies bus, job, engine, engine.store
      ensures Valid() && bus.tables == old(bus.tables)
      ensures RemovedAreLogged(bus.fifos, engine.store.log)
      ensures goOn ==>
        && job.state == Running && job.Clean() && job.read == old(job.read) + 1
        && job.node in bus.fifos && job.node in old(bus.fifos)
        && bus.fifos[job.node].removed == old(bus.fifos)[job.node].removed + 1
      ensures !goOn ==> job.state == Completed && Ended(job, bus.fifos, old(bus.heard), bus.heard)
      ensures old(bus.heard) <= bus.heard && (goOn ==> !ShortRead(bus.heard, job.node))
      ensures Refuses(old(bus.script)) && job.node in old(bus.tables) ==>
        !goOn && job.status == FifoEmpty && job.read == old(job.read) && Grown(old(bus.fifos), bus.fifos)
      ensures engine.store.writable && Draining(job.node, old(bus.fifos), old(bus.script)) ==>
        if goOn then OnCourse(job.node, old(job.read), old(bus.fifos), job.read, bus.fifos, bus.script)
        else job.status == FifoEmpty && Drained(job.node, old(job.read), old(bus.fifos), job.read, bus.fifos)
    {
      ghost var fifos, script, read := bus.fifos, bus.script, job.read;
      ghost var served := engine.store.writable && Draining(job.node, fifos, script);
      if served {
        Served(job.node, fifos, script);
      }
      var event := ReadNext(job);
      if event.None? {
        return false;
      }
      assert fifos[job.node].Becomes(bus.fifos[job.node], false);
      goOn := CountAndHandle(job, event.value);
      if served {
        OneDrained(job.node, read, fifos, script, bus.fifos, bus.script);
      }
    }

    /** At most twenty events. A job that ends well has stored all it read, and has seen the queue
        empty unless the controller refused the last read. */
    method ProcessAttendanceReadBatch(job: AttendanceReadJob)
      requires Valid() && job.state != Completed && job.Clean()
      requires RemovedAreLogged(bus.fifos, engine.store.log)
      modifies bus, job, engine, engine.store
      ensures Valid() && bus.tables == old(bus.tables)
      ensures RemovedAreLogged(bus.fifos, engine.store.log)
      ensures job.state == Completed ==> Ended(job, bus.fifos, old(bus.heard), bus.heard)
      ensures job.state != Completed ==>
        && job.state == Running && job.Clean() && job.read == old(job.read) + BATCH
        && job.node in bus.fifos && job.node in old(bus.fifos)
        && bus.fifos[job.node].removed == old(bus.fifos)[job.node].removed + BATCH
      ensures old(bus.heard) <= bus.heard && (job.state != Completed ==> !ShortRead(bus.heard, job.node))
      ensures Refuses(old(bus.script)) && job.node in old(bus.tables) ==>
        job.state == Completed && job.status == FifoEmpty && job.read == old(job.read) && Grown(old(bus.fifos), bus.fifos)
      ensures engine.store.writable && Draining(job.node, old(bus.fifos), old(bus.script)) ==>
        if job.state == Completed
        then job.status == FifoEmpty && Drained(job.node, old(job.read), old(bus.fifos), job.read, bus.fifos)
        else OnCourse(job.node, old(job.read), old(bus.fifos), job.read, bus.fifos, bus.script)
    {
      job.state := Running;
      var i := 0;
      while i < BATCH
        invariant 0 <= i <= BATCH
        invariant Valid() && bus.tables == old(bus.tables)
        invariant RemovedAreLogged(bus.fifos, engine.store.log)
        invariant job.state == Running && job.Clean() && job.read == old(job.read) + i
        invariant i > 0 ==>
          && job.node in bus.fifos && job.node in old(bus.fifos)
          && bus.fifos[job.node].removed == old(bus.fifos)[job.node].removed + i
          && !ShortRead(bus.heard, job.node)
          && !(Refuses(old(bus.script)) && job.node in old(bus.tables))
        invariant i == 0 ==> bus.fifos == old(bus.fifos) && bus.heard == old(bus.heard) && bus.script == old(bus.script)
        invariant old(bus.heard) <= bus.heard
        invariant engine.store.writable && Draining(job.node, old(bus.fifos), old(bus.script)) ==>
          OnCourse(job.node, old(job.read), old(bus.fifos), job.read, bus.fifos, bus.script)
      {
        ghost var heard := bus.heard;
        var goOn := DrainOne(job);
        if !goOn {
          EndsAlike(job, bus.fifos, old(bus.heard), heard, bus.heard);
          return;
        }
        i := i + 1;
      }
    }

    /** The worker's turns for one job, n batches at most. Every batch that goes on takes twenty events
        off the queue, so a job is over after n batches once 20 n exceeds all events that were queued
        before or during the drain. */
    method DrainInBatches(job: AttendanceReadJob, n: nat)
      requires Valid() && job.state != Completed && job.Clean()
      requires RemovedAreLogged(bus.fifos, engine.store.log)
      modifies bus, job, engine, engine.store
      ensures Valid() && bus.tables == old(bus.tables)
      ensures RemovedAreLogged(bus.fifos, engine.store.log)
      ensures job.state == Completed ==> Ended(job, bus.fifos, old(bus.heard), bus.heard)
      ensures job.state != Completed && n > 0 ==>
        && job.read == old(job.read) + BATCH * n
        && job.node in bus.fifos && job.node in old(bus.fifos)
        && old(bus.fifos)[job.node].removed + BATCH * n <= |bus.fifos[job.node].queued|
      ensures engine.store.writable && Draining(job.node, old(bus.fifos), old(bus.script)) ==>
        var left := |old(bus.fifos)[job.node].queued| - old(bus.fifos)[job.node].removed;
        left < BATCH * n ==>
          && job.state == Completed && job.ok && job.status == FifoEmpty
          && job.read == old(job.read) + left && bus.fifos[job.node].Empty()
    {
      var k := 0;
      while k < n && job.state != Completed
        invariant 0 <= k <= n
        invariant Valid() && bus.tables == old(bus.tables)
        invariant RemovedAreLogged(bus.fifos, engine.store.log)
        invariant old(bus.heard) <= bus.heard
        invariant job.state == Completed ==> Ended(job, bus.fifos, old(bus.heard), bus.heard)
        invariant job.state != Completed ==> job.Clean() && job.read == old(job.read) + BATCH * k
        invariant job.state != Completed && k > 0 ==>
          && job.node in bus.fifos && job.node in old(bus.fifos)
          && bus.fifos[job.node].removed == old(bus.fifos)[job.node].removed + BATCH * k
          && !ShortRead(bus.heard, job.node)
        invariant k == 0 ==> bus.fifos == old(bus.fifos) && bus.heard == old(bus.heard)
        invariant engine.store.writable && Draining(job.node, old(bus.fifos), old(bus.script)) ==>
          if job.state == Completed
          then job.status == FifoEmpty && Drained(job.node, old(job.read), old(bus.fifos), job.read, bus.fifos)
          else OnCourse(job.node, old(job.read), old(bus.fifos), job.read, bus.fifos, bus.script)
      {
        ghost var heard := bus.heard;
        ProcessAttendanceReadBatch(job);
        if job.state == Completed {
          EndsAlike(job, bus.fifos, old(bus.heard), heard, bus.heard);
        }
        k := k + 1;
      }
    }
  }

  lemma NoPop(fifos: map<byte, Fifo>, node: byte)
    ensures FifosAfter(fifos, fifos, node, false)
  {
  }

  /** How a drain ends that read an event and could not store or remove it. */
  ghost predicate FailedAfterRead(job: AttendanceReadJob)
    reads job
  {
    && job.accessEvents + job.rawEvents == job.read && !job.ok
    && match job.status
       case StorageError => job.read == job.stored + 1 && job.failed == 1
       case DeleteError => job.read == job.stored && job.failed == 0
       case _ => false
  }

  /** How a drain may end, given what was read from the line before and after it: well on a short answer
      to the last read and on nothing else. That answer shows an empty queue unless it is a NACK. */
  ghost predicate Ended(job: AttendanceReadJob, fifos: map<byte, Fifo>, before: seq<Heard>, heard: seq<Heard>)
    reads job
  {
    && job.accessEvents + job.rawEvents == job.read
    && (job.ok <==> job.status == FifoEmpty)
    && (job.status == FifoEmpty <==> before < heard && ShortRead(heard, job.node))
    && match job.status
       case FifoEmpty =>
         && job.read == job.stored && job.failed == 0
         && (Refused(heard, job.node) || (job.node in fifos && fifos[job.node].Empty()))
       case CommunicationError => job.read == job.stored && job.failed == 1
       case _ => FailedAfterRead(job)
  }

  lemma EndsAlike(job: AttendanceReadJob, fifos: map<byte, Fifo>, first: seq<Heard>, before: seq<Heard>,
                  heard: seq<Heard>)
    requires Ended(job, fifos, before, heard) && first <= before <= heard
    requires first == before || !ShortRead(before, job.node)
    ensures Ended(job, fifos, first, heard)
  {
  }

  /** Such a line exists: it brings back 05H with the node. */
  function RefusingScript(node: byte): (script: seq<Turn>)
    ensures Refuses(script)
  {
    FrameIsValid(0, NACK, [node]);
    [Turn([], false, [Frame(0, NACK, [node])], true)]
  }

  /** A reader, a new job and a store that works, on a line with these controllers and this script. */
  method NewDrain(node: byte, env: Env, tables: map<byte, Tables>, fifos: map<byte, Fifo>, script: seq<Turn>)
    returns (reader: AttendanceReader, job: AttendanceReadJob)
    requires tables.Keys == fifos.Keys && AllWellFormed(tables)
    requires forall n :: n in fifos ==> fifos[n].removed == 0
    ensures reader.Valid() && reader.bus.tables == tables && reader.bus.fifos == fifos && reader.bus.script == script
    ensures reader.engine.store.writable && RemovedAreLogged(fifos, reader.engine.store.log)
    ensures job.node == node && job.state == Queued && job.Clean() && job.read == 0
    ensures fresh(reader.bus) && fresh(reader.engine) && fresh(reader.engine.store) && fresh(job)
  {
    var bus := new Bus(tables, fifos, script);
    var store := new FileStore(env, true);
    var engine := new AttendanceEngine(store);
    reader := new AttendanceReader(bus, engine);
    job := new AttendanceReadJob(node);
  }

  /** Drains of queues that hold events and yet end well: whatever is queued, the controller answers the
      first read with a NACK. */
  method RefusedDrainEndsWell(node: byte, env: Env, tables: map<byte, Tables>, fifos: map<byte, Fifo>)
    returns (bus: Bus, job: AttendanceReadJob)
    requires tables.Keys == fifos.Keys && node in fifos && fifos[node].queued != []
    requires AllWellFormed(tables)
    requires forall n :: n in fifos ==> fifos[n].removed == 0
    ensures job.node == node && job.state == Completed && job.ok && job.status == FifoEmpty && job.read == 0
    ensures node in bus.fifos && !bus.fifos[node].Empty()
  {
    var reader;
    reader, job := NewDrain(node, env, tables, fifos, RefusingScript(node));
    bus := reader.bus;
    reader.ProcessAttendanceReadBatch(job);
    assert fifos[node].Becomes(bus.fifos[node], false);
  }

  /** Such a line exists for every queue of frames. */
  function ServingScript(node: byte, fifo: Fifo): (script: seq<Turn>)
    requires fifo.WellFormed()
    requires forall e :: e in fifo.queued ==> ValidFrame(e) && |e| >= EVENT_LENGTH
    ensures Drains(script, node, fifo)
    decreases |fifo.queued| - fifo.removed
  {
    var read := Turn([], true, [EventAnswer(node, fifo)], true);
    if fifo.Empty() then [read]
    else
      var removal, rest := Turn([], true, [AckAnswer(node)], true), ServingScript(node, fifo.Pop());
      assert ([read, removal] + rest)[1..][0] == removal && ([read, removal] + rest)[2..] == rest;
      [read, removal] + rest
  }

  /** A drain of any queue of frames, over a line that answers and into a log that takes them, reads and
      removes all of them and ends well. */
  method ServedDrainEndsWell(node: byte, env: Env, tables: map<byte, Tables>, fifos: map<byte, Fifo>)
    returns (bus: Bus, job: AttendanceReadJob)
    requires tables.Keys == fifos.Keys && node in fifos
    requires AllWellFormed(tables)
    requires forall n :: n in fifos ==> fifos[n].removed == 0
    requires forall e :: e in fifos[node].queued ==> ValidFrame(e) && |e| >= EVENT_LENGTH
    ensures job.node == node && job.state == Completed && job.ok && job.status == FifoEmpty
    ensures job.read == job.stored == |fifos[node].queued|
    ensures node in bus.fifos && bus.fifos[node].Empty()
  {
    var reader;
    reader, job := NewDrain(node, env, tables, fifos, ServingScript(node, fifos[node]));
    bus := reader.bus;
    reader.DrainInBatches(job, |fifos[node].queued| + 1);
  }
}
