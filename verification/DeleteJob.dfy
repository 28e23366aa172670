/** The worker that deletes users from controllers and then, if asked to, from the local store. */
module DeleteJobs {
  import opened JobStates
  import opened Bytes
  import opened Types
  import opened Devices
  import opened Records
  import opened Protocol
  import opened UserRegistry
  import opened UserStore
  import opened Counting

  class DeleteJob {
    var state: JobState
    var completed: nat
    var success: nat
    var failed: nat
    var localDeleted: nat
    var localRetained: nat

    constructor ()
      ensures completed == success == failed == localDeleted == localRetained == 0
    {
      state := Queued;
      completed, success, failed, localDeleted, localRetained := 0, 0, 0, 0, 0;
    }
  }

  /** The controller refuses whoever holds this slot. */
  ghost predicate SlotInvalidated(tables: map<byte, Tables>, node: byte, a: int) {
    && node in tables && 0 <= a < |tables[node].slots|
    && |tables[node].slots[a]| == H_RECORD && tables[node].slots[a][6] == 0
  }

  ghost predicate InvalidatedOn(tables: map<byte, Tables>, nodes: seq<byte>, a: int) {
    forall n :: n in nodes ==> SlotInvalidated(tables, n, a)
  }

  /** All that may happen to a slot: its mode becomes Invalid. */
  ghost predicate ModeOnly(was: seq<byte>, now: seq<byte>) {
    now == was || (|was| == H_RECORD && now == Disabled(was))
  }

  /** Only the slots of listed users on listed nodes changed, and those only in their mode. */
  ghost predicate OnlyModes(users: seq<User>, nodes: seq<byte>, was: map<byte, Tables>, now: map<byte, Tables>) {
    && was.Keys == now.Keys
    && forall n :: n in was ==>
      && now[n].eeprom == was[n].eeprom
      && |now[n].slots| == |was[n].slots|
      && forall a :: 0 <= a < |was[n].slots| ==>
        && ModeOnly(was[n].slots[a], now[n].slots[a])
        && (now[n].slots[a] != was[n].slots[a] ==> n in nodes && exists u :: u in users && u.controllerPort == a)
  }

  lemma OnlyModesTwice(users: seq<User>, nodes: seq<byte>, a: map<byte, Tables>, b: map<byte, Tables>,
                       c: map<byte, Tables>)
    requires OnlyModes(users, nodes, a, b) && OnlyModes(users, nodes, b, c)
    ensures OnlyModes(users, nodes, a, c)
  {
    forall n, i | n in a && 0 <= i < |a[n].slots|
      ensures ModeOnly(a[n].slots[i], c[n].slots[i])
      ensures c[n].slots[i] != a[n].slots[i] ==> n in nodes && exists u :: u in users && u.controllerPort == i
    {
      assert ModeOnly(a[n].slots[i], b[n].slots[i]) && ModeOnly(b[n].slots[i], c[n].slots[i]);
    }
  }

  /** What was invalidated stays so. */
  lemma InvalidatedStays(users: seq<User>, nodes: seq<byte>, was: map<byte, Tables>, now: map<byte, Tables>,
                         on: seq<byte>, a: int)
    requires OnlyModes(users, nodes, was, now)
    ensures InvalidatedOn(was, on, a) ==> InvalidatedOn(now, on, a)
  {
    if InvalidatedOn(was, on, a) {
      forall n | n in on
        ensures SlotInvalidated(now, n, a)
      {
        assert SlotInvalidated(was, n, a);
        assert ModeOnly(was[n].slots[a], now[n].slots[a]);
      }
    }
  }

  ghost predicate AllInvalidated(users: seq<User>, nodes: seq<byte>, tables: map<byte, Tables>) {
    forall u :: u in users ==> InvalidatedOn(tables, nodes, u.controllerPort)
  }

  /** Whoever was erased from the store: the slot that the job's own record of that id names is invalid on
      every selected controller. */
  ghost predicate ErasedSafely(users: seq<User>, nodes: seq<byte>, was: seq<User>, now: seq<User>,
                               tables: map<byte, Tables>) {
    && (forall v :: v in now ==> v in was)
    && forall v :: v in was && v !in now ==> RefusedBy(users, nodes, v.id, tables)
  }

  /** The job's copies of the users name the slots that the store names. */
  ghost predicate CopiesAreCurrent(users: seq<User>, store: seq<User>) {
    forall u, v :: u in users && v in store && u.id == v.id ==> u.controllerPort == v.controllerPort
  }

  /** Then whoever was erased is refused, at the slot of the erased record, by every selected controller. */
  ghost predicate ErasedAreRefused(nodes: seq<byte>, was: seq<User>, now: seq<User>, tables: map<byte, Tables>) {
    forall v :: v in was && v !in now ==> InvalidatedOn(tables, nodes, v.controllerPort)
  }

  lemma ErasedByCurrentCopies(users: seq<User>, nodes: seq<byte>, was: seq<User>, now: seq<User>,
                              tables: map<byte, Tables>)
    requires ErasedSafely(users, nodes, was, now, tables) && CopiesAreCurrent(users, was)
    ensures ErasedAreRefused(nodes, was, now, tables)
  {
    forall v | v in was && v !in now
      ensures InvalidatedOn(tables, nodes, v.controllerPort)
    {
      assert RefusedBy(users, nodes, v.id, tables);
    }
  }

  ghost predicate RefusedBy(users: seq<User>, nodes: seq<byte>, id: int, tables: map<byte, Tables>) {
    exists u :: u in users && u.id == id && InvalidatedOn(tables, nodes, u.controllerPort)
  }

  lemma DeletionsStay(users: seq<User>, some: seq<User>, nodes: seq<byte>, t: map<byte, Tables>,
                      t': map<byte, Tables>)
    requires OnlyModes(users, nodes, t, t')
    ensures AllInvalidated(some, nodes, t) ==> AllInvalidated(some, nodes, t')
  {
    forall a | InvalidatedOn(t, nodes, a)
      ensures InvalidatedOn(t', nodes, a)
    {
      InvalidatedStays(users, nodes, t, t', nodes, a);
    }
  }

  /** One node more. */
  lemma NodeDone(users: seq<User>, nodes: seq<byte>, j: nat, a: int, was: map<byte, Tables>, t: map<byte, Tables>,
                 now: map<byte, Tables>, allOk: bool, ok: bool)
    requires j < |nodes| && OnlyModes(users, nodes, was, t) && OnlyModes(users, nodes, t, now)
    requires allOk ==> InvalidatedOn(t, nodes[..j], a)
    requires ok ==> SlotInvalidated(now, nodes[j], a)
    ensures OnlyModes(users, nodes, was, now)
    ensures allOk && ok ==> InvalidatedOn(now, nodes[..j + 1], a)
  {
    OnlyModesTwice(users, nodes, was, t, now);
    InvalidatedStays(users, nodes, t, now, nodes[..j], a);
    assert nodes[..j + 1] == nodes[..j] + [nodes[j]];
  }

  /** One user more. */
  lemma UserDone(users: seq<User>, nodes: seq<byte>, done: seq<User>, u: User, was: map<byte, Tables>,
                 t: map<byte, Tables>, now: map<byte, Tables>, allOk: bool)
    requires OnlyModes(users, nodes, was, t) && OnlyModes(users, nodes, t, now)
    requires allOk ==> InvalidatedOn(now, nodes, u.controllerPort)
    ensures OnlyModes(users, nodes, was, now)
    ensures AllInvalidated(done, nodes, t) ==> AllInvalidated(done, nodes, now)
    ensures AllInvalidated(done, nodes, t) && allOk ==> AllInvalidated(done + [u], nodes, now)
  {
    OnlyModesTwice(users, nodes, was, t, now);
    DeletionsStay(users, done, nodes, t, now);
  }

  function Ids(users: seq<User>): seq<int> {
    seq(|users|, k requires 0 <= k < |users| => users[k].id)
  }

  lemma {:induction false} ErasedTwice(users: seq<User>, a: seq<int>, b: seq<int>)
    ensures Erased(Erased(users, a), b) == Erased(users, a + b)
  {
    if users != [] {
      var rest, last := Erased(users[..|users| - 1], a), users[|users| - 1];
      ErasedTwice(users[..|users| - 1], a, b);
      assert (rest + [last])[..|rest|] == rest;
    }
  }

  /** One more user is gone. */
  lemma GoneOneMore(was: seq<User>, gone: seq<User>, u: User)
    ensures Erased(Erased(was, Ids(gone)), [u.id]) == Erased(was, Ids(gone + [u]))
  {
    assert Ids(gone + [u]) == Ids(gone) + [u.id];
    ErasedTwice(was, Ids(gone), [u.id]);
  }

  /** If only those were erased whom every controller refuses, everybody was erased safely. */
  lemma GoneAreRefused(users: seq<User>, nodes: seq<byte>, was: seq<User>, gone: seq<User>, tables: map<byte, Tables>)
    requires AllInvalidated(gone, nodes, tables) && forall u :: u in gone ==> u in users
    ensures ErasedSafely(users, nodes, was, Erased(was, Ids(gone)), tables)
  {
    var now := Erased(was, Ids(gone));
    ErasedMembers(was, Ids(gone));
    forall v | v in was && v !in now
      ensures RefusedBy(users, nodes, v.id, tables)
    {
      assert v.id in Ids(gone);
      var k :| 0 <= k < |gone| && Ids(gone)[k] == v.id;
      assert gone[k] in gone && InvalidatedOn(tables, nodes, gone[k].controllerPort);
    }
  }

  lemma Nobody(users: seq<User>)
    ensures Erased(users, Ids([])) == users
  {
    ErasedNone(users);
  }

  /** The next turns delete the record of a slot, or find it invalid. */
  predicate Deletes(script: seq<Turn>, node: byte, slot: seq<byte>) {
    && |slot| == H_RECORD && Brings(script, RecordAnswer(node, slot))
    && (slot[6] == 0 || Confirms(script[1..], node, Disabled(slot)))
  }

  /** That is what comes for this user on the one node there is. */
  ghost predicate Served(u: User, nodes: seq<byte>, tables: map<byte, Tables>, script: seq<Turn>) {
    && |nodes| == 1 && nodes[0] in tables && 0 <= u.controllerPort < |tables[nodes[0]].slots|
    && Deletes(script, nodes[0], tables[nodes[0]].slots[u.controllerPort])
  }

  lemma SlotOverwritten(users: seq<User>, nodes: seq<byte>, u: User, node: byte, was: map<byte, Tables>,
                        now: map<byte, Tables>)
    requires u in users && node in nodes && node in was && 0 <= u.controllerPort < |was[node].slots|
    requires |was[node].slots[u.controllerPort]| == H_RECORD
    requires AllOrNothing(was, now, node, u.controllerPort, Disabled(was[node].slots[u.controllerPort]))
    ensures OnlyModes(users, nodes, was, now)
  {
  }

  class DeleteWorker {
    const bus: Bus
    const proto: Unex721Protocol
    const store: UserManager
    const job: DeleteJob

    constructor (bus: Bus, store: UserManager, job: DeleteJob)
      ensures this.bus == bus && this.store == store && this.job == job && proto.bus == bus
    {
      this.bus := bus;
      this.store := store;
      this.job := job;
      proto := new Unex721Protocol(bus);
    }

    ghost predicate Valid()
      reads this, proto, bus, job
    {
      proto.bus == bus && bus.Valid() && job.completed == job.success + job.failed
    }

    /** One user on one node. */
    method DeleteOne(ghost users: seq<User>, ghost nodes: seq<byte>, u: User, node: byte) returns (ok: bool)
      requires Valid() && u in users && node in nodes
      modifies bus, job`completed, job`success, job`failed
      ensures Valid() && Grown(old(bus.fifos), bus.fifos)
      ensures OnlyModes(users, nodes, old(bus.tables), bus.tables)
      ensures ok ==> SlotInvalidated(bus.tables, node, u.controllerPort)
      ensures job.completed == old(job.completed) + 1
      ensures job.failed == old(job.failed) + (if ok then 0 else 1)
      ensures Served(u, [node], old(bus.tables), old(bus.script)) ==> ok
    {
      ghost var tables := bus.tables;
      var out := proto.DeleteUser(node, u);
      if bus.tables != tables {
        SlotOverwritten(users, nodes, u, node, tables, bus.tables);
      }
      job.completed := job.completed + 1;
      if out.ok {
        job.success := job.success + 1;
      } else {
        job.failed := job.failed + 1;
      }
      ok := out.ok;
    }

    /** One user on every selected node, past failures. */
    method DeleteEverywhere(ghost users: seq<User>, u: User, nodes: seq<byte>) returns (allOk: bool)
      requires Valid() && u in users
      modifies bus, job`completed, job`success, job`failed
      ensures Valid() && Grown(old(bus.fifos), bus.fifos)
      ensures OnlyModes(users, nodes, old(bus.tables), bus.tables)
      ensures allOk ==> InvalidatedOn(bus.tables, nodes, u.controllerPort)
      ensures job.completed == old(job.completed) + |nodes|
      ensures job.failed >= old(job.failed) && (allOk <==> job.failed == old(job.failed))
      ensures Served(u, nodes, old(bus.tables), old(bus.script)) ==> allOk
    {
      allOk := true;
      ghost var tables, fifos := bus.tables, bus.fifos;
      for j := 0 to |nodes|
        invariant Valid() && Grown(fifos, bus.fifos)
        invariant OnlyModes(users, nodes, tables, bus.tables)
        invariant allOk ==> InvalidatedOn(bus.tables, nodes[..j], u.controllerPort)
        invariant job.completed == old(job.completed) + j
        invariant job.failed >= old(job.failed) && (allOk <==> job.failed == old(job.failed))
        invariant j == 0 ==> allOk && bus.tables == tables && bus.script == old(bus.script)
        invariant Served(u, nodes, tables, old(bus.script)) ==> allOk
      {
        ghost var t, f := bus.tables, bus.fifos;
        assert Served(u, nodes, tables, old(bus.script)) ==> j == 0 && Served(u, [nodes[j]], t, bus.script);
        var ok := DeleteOne(users, nodes, u, nodes[j]);
        GrownTwice(fifos, f, bus.fifos);
        NodeDone(users, nodes, j, u.controllerPort, tables, t, bus.tables, allOk, ok);
        if !ok {
          allOk := false;
        }
      }
      assert nodes[..|nodes|] == nodes;
    }

    /** The local record goes after every selected controller confirmed, and only then. */
    method EraseLocally(u: User, allOk: bool) returns (erased: bool)
      modifies store, job`localDeleted, job`localRetained
      ensures store.users == if allOk then Erased(old(store.users), [u.id]) else old(store.users)
      ensures erased ==> allOk && |store.users| < |old(store.users)|
      ensures job.localDeleted == old(job.localDeleted) + (if erased then 1 else 0)
      ensures job.localRetained == old(job.localRetained) + (if erased then 0 else 1)
    {
      erased := false;
      if allOk {
        erased := store.Erase(u.id);
      }
      if erased {
        job.localDeleted := job.localDeleted + 1;
      } else {
        job.localRetained := job.localRetained + 1;
      }
    }

    /** What holds after the users `done` were dealt with and `gone` of them confirmed everywhere. */
    ghost predicate Progress(users: seq<User>, done: seq<User>, gone: seq<User>, nodes: seq<byte>, fromSystem: bool,
                             tables: map<byte, Tables>, fifos: map<byte, Fifo>, was: seq<User>)
      reads this, proto, bus, job, store
    {
      && Valid() && Grown(fifos, bus.fifos)
      && OnlyModes(users, nodes, tables, bus.tables)
      && (job.failed == 0 ==> AllInvalidated(done, nodes, bus.tables))
      && job.completed == Repeated(|nodes|, |done|)
      && store.users == Erased(was, Ids(gone)) && AllInvalidated(gone, nodes, bus.tables)
      && (forall u :: u in gone ==> u in done)
      && (if fromSystem
          then job.localDeleted + job.localRetained == |done| && |done| - |gone| <= job.failed
               && (job.failed == 0 ==> gone == done)
          else gone == [] && job.localDeleted == job.localRetained == 0)
    }

    method DeleteUserEntirely(ghost users: seq<User>, ghost done: seq<User>, ghost gone: seq<User>, u: User,
                              nodes: seq<byte>, fromSystem: bool, ghost tables: map<byte, Tables>,
                              ghost fifos: map<byte, Fifo>, ghost was: seq<User>)
      returns (erased: bool, ghost goneNow: seq<User>)
      requires u in users && Progress(users, done, gone, nodes, fromSystem, tables, fifos, was)
      modifies bus, store, job`completed, job`success, job`failed, job`localDeleted, job`localRetained
      ensures Progress(users, done + [u], goneNow, nodes, fromSystem, tables, fifos, was)
      ensures job.localDeleted == old(job.localDeleted) + (if erased then 1 else 0)
      ensures job.failed >= old(job.failed)
      ensures Served(u, nodes, old(bus.tables), old(bus.script)) ==> job.failed == old(job.failed)
    {
      ghost var t, f := bus.tables, bus.fifos;
      var allOk := DeleteEverywhere(users, u, nodes);
      GrownTwice(fifos, f, bus.fifos);
      UserDone(users, nodes, done, u, tables, t, bus.tables, allOk);
      UserDone(users, nodes, gone, u, tables, t, bus.tables, allOk);
      erased, goneNow := false, gone;
      if fromSystem {
        GoneOneMore(was, gone, u);
        erased := EraseLocally(u, allOk);
        goneNow := if allOk then gone + [u] else gone;
      }
    }

    /** The job: `gone` are the users that every selected controller confirmed. They leave the store and
        nobody else does. */
    method ProcessDelete(users: seq<User>, nodes: seq<byte>, fromSystem: bool)
      returns (metadataChanged: bool, ghost gone: seq<User>)
      requires Valid()
      requires job.completed == job.failed == job.localDeleted == job.localRetained == 0
      modifies bus, store, job
      ensures Valid() && job.state == Completed && Grown(old(bus.fifos), bus.fifos)
      ensures job.completed == |users| * |nodes|
      ensures OnlyModes(users, nodes, old(bus.tables), bus.tables)
      ensures job.failed == 0 ==> AllInvalidated(users, nodes, bus.tables)
      ensures store.users == Erased(old(store.users), Ids(gone)) && AllInvalidated(gone, nodes, bus.tables)
      ensures forall u :: u in gone ==> u in users
      ensures fromSystem ==> |users| - |gone| <= job.failed && (job.failed == 0 ==> gone == users)
      ensures ErasedSafely(users, nodes, old(store.users), store.users, bus.tables)
      ensures CopiesAreCurrent(users, old(store.users)) ==>
        ErasedAreRefused(nodes, old(store.users), store.users, bus.tables)
      ensures if fromSystem then job.localDeleted + job.localRetained == |users|
              else store.users == old(store.users) && job.localDeleted == job.localRetained == 0
      ensures metadataChanged <==> job.localDeleted > 0
      ensures |users| == 1 && Served(users[0], nodes, old(bus.tables), old(bus.script)) ==> job.failed == 0
    {
      job.state := Running;
      metadataChanged, gone := false, [];
      ghost var tables, fifos, was := bus.tables, bus.fifos, store.users;
      Nobody(was);
      for i := 0 to |users|
        invariant Progress(users, users[..i], gone, nodes, fromSystem, tables, fifos, was)
        invariant metadataChanged <==> job.localDeleted > 0
        invariant i == 0 ==> bus.tables == tables && bus.script == old(bus.script) && job.failed == 0
        invariant |users| == 1 && Served(users[0], nodes, tables, old(bus.script)) ==> job.failed == 0
      {
        assert users[..i + 1] == users[..i] + [users[i]];
        var erased;
        erased, gone := DeleteUserEntirely(users, users[..i], gone, users[i], nodes, fromSystem, tables, fifos, was);
        metadataChanged := metadataChanged || erased;
      }
      assert users[..|users|] == users;
      RepeatedIsProduct(|nodes|, |users|);
      Nobody(was);
      GoneAreRefused(users, nodes, was, gone, bus.tables);
      if CopiesAreCurrent(users, was) {
        ErasedByCurrentCopies(users, nodes, was, store.users, bus.tables);
      }
      job.state := Completed;
    }
  }

  /** A controller whose slots are all taken but for one. */
  function AllButOne(a: nat): (t: Tables)
    requires a < SLOTS
    ensures t.WellFormed() && t.slots[a] == ZEROS
    ensures forall b :: 0 <= b < SLOTS && b != a ==> t.slots[b] == [0, 1, 0, 2, 0, 0, 1, 1]
  {
    Tables(seq(SLOTS, b requires 0 <= b < SLOTS => if b == a then ZEROS else [0, 1, 0, 2, 0, 0, 1, 1]),
           seq(EEPROM_SIZE, _ => 0))
  }

  /** A line that brings back an empty slot. */
  function ConfirmingScript(node: byte): (script: seq<Turn>)
    ensures Deletes(script, node, ZEROS)
  {
    [Turn([], true, [RecordAnswer(node, ZEROS)], true)]
  }

  /** Nothing but the slot of u is invalid. */
  lemma OthersActive(u: User, node: byte, was: seq<User>, tables: map<byte, Tables>)
    requires 0 <= u.controllerPort < SLOTS
    requires OnlyModes([u], [node], map[node := AllButOne(u.controllerPort)], tables)
    requires SlotInvalidated(tables, node, u.controllerPort)
    ensures ErasedAreRefused([node], was, Erased(was, [u.id]), tables) <==> CopiesAreCurrent([u], was)
  {
    ErasedMembers(was, [u.id]);
    assert node in [node] && u in [u];
    forall a: int
      ensures InvalidatedOn(tables, [node], a) <==> a == u.controllerPort
    {
      if a != u.controllerPort {
        assert !SlotInvalidated(tables, node, a);
      }
    }
  }

  /** A deletion of one user by a copy whose slot is empty, on a controller where every other slot is taken:
      the controller confirms at once and the user leaves the store. Whoever left is refused if and only if
      the copy names the slot of the stored record. */
  method EmptySlotIsConfirmed(u: User, was: seq<User>, node: byte)
    returns (bus: Bus, store: UserManager, job: DeleteJob)
    requires 0 <= u.controllerPort < SLOTS
    ensures job.state == Completed && job.failed == 0
    ensures store.users == Erased(was, [u.id]) && forall v :: v in store.users ==> v.id != u.id
    ensures ErasedAreRefused([node], was, store.users, bus.tables) <==> CopiesAreCurrent([u], was)
  {
    var tables := map[node := AllButOne(u.controllerPort)];
    ghost var script := ConfirmingScript(node);
    bus := new Bus(tables, map[node := Fifo([], 0)], ConfirmingScript(node));
    assert Served(u, [node], tables, script);
    store := new UserManager(was);
    job := new DeleteJob();
    var worker := new DeleteWorker(bus, store, job);
    ghost var gone;
    var changed;
    changed, gone := worker.ProcessDelete([u], [node], true);
    assert Ids(gone) == [u.id];
    ErasedMembers(was, [u.id]);
    assert u in [u] && node in [node];
    OthersActive(u, node, was, bus.tables);
  }
}
