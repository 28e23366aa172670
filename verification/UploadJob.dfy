/** The worker that carries out upload jobs. */
module UploadJobs {
  import opened JobStates
  import opened Bytes
  import opened Types
  import opened Devices
  import opened Records
  import opened Protocol
  import opened SyncImage
  import opened Counting

  /** One entry of a job's result list. */
  datatype Step = Step(userId: int, node: byte, status: Status)

  class UploadJob {
    var state: JobState
    const total: nat
    var completed: nat
    var success: nat
    var failed: nat
    var skipped: nat
    var results: seq<Step>

    constructor (users: seq<User>, nodes: seq<byte>, fullSync: bool)
      ensures total == if fullSync then (SLOTS + 1) * |nodes| else |users| * |nodes|
      ensures completed == success == failed == skipped == 0 && results == []
    {
      state := Queued;
      total := if fullSync then (SLOTS + 1) * |nodes| else |users| * |nodes|;
      completed, success, failed, skipped, results := 0, 0, 0, 0, [];
    }

    /** Steps that did not succeed. */
    function Troubles(): nat
      reads this`failed, this`skipped
    {
      failed + skipped
    }

    ghost predicate Balanced()
      reads this
    {
      completed == success + failed + skipped
    }

    /** Counts a step, and lists its result if asked for. */
    method Append(step: Step, ok: bool, isSkipped: bool, keep: bool)
      requires Balanced()
      modifies this`completed, this`success, this`failed, this`skipped, this`results
      ensures Balanced() && completed == old(completed) + 1
      ensures success == old(success) + (if ok && !isSkipped then 1 else 0)
      ensures skipped == old(skipped) + (if isSkipped then 1 else 0)
      ensures failed == old(failed) + (if !ok && !isSkipped then 1 else 0)
      ensures results == old(results) + (if keep then [step] else [])
    {
      completed := completed + 1;
      if ok && !isSkipped {
        success := success + 1;
      } else if isSkipped {
        skipped := skipped + 1;
      } else {
        failed := failed + 1;
      }
      if keep {
        results := results + [step];
      }
    }
  }

  /** How many of the listed results of a node are failures. */
  function Bad(results: seq<Step>, n: byte): nat {
    if results == [] then 0
    else
      var last := results[|results| - 1];
      Bad(results[..|results| - 1], n) + (if last.node == n && !Good(last.status) then 1 else 0)
  }

  lemma {:induction false} BadMeaning(results: seq<Step>, n: byte)
    ensures Bad(results, n) == 0 <==> forall i :: 0 <= i < |results| && results[i].node == n ==> Good(results[i].status)
  {
    if results != [] {
      BadMeaning(results[..|results| - 1], n);
    }
  }

  /** The results took in d failures, all of this node. */
  ghost predicate Noted(before: seq<Step>, after: seq<Step>, node: byte, d: int) {
    d >= 0 && forall m: byte :: Bad(after, m) == Bad(before, m) + if m == node then d else 0
  }

  lemma NotedOne(before: seq<Step>, after: seq<Step>, step: Step, keep: bool)
    requires after == before + (if keep then [step] else []) && (keep || Good(step.status))
    ensures Noted(before, after, step.node, if Good(step.status) then 0 else 1)
  {
    if keep {
      assert after[..|before|] == before;
    } else {
      assert after == before;
    }
  }

  lemma NotedTwice(a: seq<Step>, b: seq<Step>, c: seq<Step>, node: byte, d: int, e: int)
    requires Noted(a, b, node, d) && Noted(b, c, node, e)
    ensures Noted(a, c, node, d + e)
  {
  }

  /** Every node that is listed once, and of which no new failure is listed, holds its image. */
  ghost predicate CleanNodesSynced(users: seq<User>, nodes: seq<byte>, r0: seq<Step>, results: seq<Step>,
                                   was: map<byte, Tables>, now: map<byte, Tables>)
    requires AllWellFormed(was)
  {
    forall n :: Bad(results, n) >= Bad(r0, n) && (ListedOnce(nodes, n) && Bad(results, n) == Bad(r0, n) ==> NodeSynced(users, was, now, n))
  }

  ghost predicate NodeSynced(users: seq<User>, was: map<byte, Tables>, now: map<byte, Tables>, n: byte)
    requires AllWellFormed(was)
  {
    n in was && n in now && AllWritable(users) && now[n] == ImageOf(users, was[n])
  }

  // ---- one node, phase by phase ----

  /** The slots after the absent addresses below `upto` were zeroed. */
  function Cleared(users: seq<User>, t: Tables, upto: nat): Tables {
    t.(slots := seq(|t.slots|, a requires 0 <= a < |t.slots| => if a < upto && a !in Ports(users) then ZEROS else t.slots[a]))
  }

  /** The slots after the users were written in order. */
  function Stored(users: seq<User>, t: Tables): Tables {
    t.(slots := seq(|t.slots|, a requires 0 <= a < |t.slots| => Written(users, a, t.slots[a])))
  }

  lemma SaneStep(users: seq<User>, was: Tables, before: Tables, after: Tables, a: nat, record: seq<byte>)
    requires SaneTables(users, was, before)
    requires a < |before.slots| && (after == before || after == before.WithSlot(a, record))
    requires (a !in Ports(users) && record == ZEROS)
          || (exists u :: u in users && u.controllerPort == a && Credentials(u).Some? && |record| == H_RECORD
                          && record[..H_RECORD - 1] == Credentials(u).value)
    ensures SaneTables(users, was, after)
  {
    forall b | 0 <= b < |was.slots|
      ensures Sane(users, b, was.slots[b], after.slots[b])
    {
      assert Sane(users, b, was.slots[b], before.slots[b]);
    }
  }

  lemma ClearStep(users: seq<User>, t: Tables, a: nat, now: Tables)
    requires a < |t.slots| && a !in Ports(users)
    requires now == Cleared(users, t, a) || now == Cleared(users, t, a).WithSlot(a, ZEROS)
    requires now.slots[a] == ZEROS
    ensures now == Cleared(users, t, a + 1)
  {
    assert now.slots == Cleared(users, t, a + 1).slots;
  }

  lemma ListedStays(users: seq<User>, t: Tables, a: nat)
    requires a in Ports(users)
    ensures Cleared(users, t, a + 1) == Cleared(users, t, a)
  {
    assert Cleared(users, t, a + 1).slots == Cleared(users, t, a).slots;
  }

  /** One more of the listed users is in place. */
  lemma UserStored(users: seq<User>, u: User, next: seq<User>, was: Tables, before: Tables, now: Tables)
    requires next == users + [u]
    requires before == Stored(users, was) && UserWritten(u, before, now, true)
    ensures now == Stored(next, was)
    ensures AllWritable(users) ==> AllWritable(next)
  {
    StoreStep(users, was, u, now);
  }

  lemma StoreStep(users: seq<User>, t: Tables, u: User, now: Tables)
    requires 0 <= u.controllerPort < |t.slots| && Credentials(u).Some?
    requires var before, a := Stored(users, t), u.controllerPort;
             var record := RecordFor(u, before.slots[a]);
             && (now == before || now == before.WithSlot(a, record))
             && now.slots[a] == record
    ensures now == Stored(users + [u], t)
  {
    assert (users + [u])[..|users|] == users;
    assert now.slots == Stored(users + [u], t).slots;
  }

  function OptionOff(t: Tables): Tables
    requires t.WellFormed()
  {
    t.WithEeprom(ASSIGNED_FUNCTIONS, [ClearBit5(t.eeprom[ASSIGNED_FUNCTIONS])])
  }

  /** Clearing the bit, or trying to, leaves the option of this node off or as it was. */
  lemma OptionSettled(was: map<byte, Tables>, now: map<byte, Tables>, node: byte)
    requires AllWellFormed(was) && node in was
    requires EepromAllOrNothing(was, now, node, ASSIGNED_FUNCTIONS, [ClearBit5(was[node].eeprom[ASSIGNED_FUNCTIONS])])
    ensures OnlyNode(was, now, node) && node in now && now[node] in {was[node], OptionOff(was[node])}
    ensures now[node].eeprom[ASSIGNED_FUNCTIONS] == ClearBit5(was[node].eeprom[ASSIGNED_FUNCTIONS]) ==>
      now[node] == OptionOff(was[node])
  {
    var off := OptionOff(was[node]);
    assert was[node].eeprom[ASSIGNED_FUNCTIONS] == off.eeprom[ASSIGNED_FUNCTIONS] ==> was[node].eeprom == off.eeprom;
  }

  lemma PhasesMakeImage(users: seq<User>, t: Tables)
    requires t.WellFormed()
    ensures Stored(users, Cleared(users, OptionOff(t), SLOTS)) == ImageOf(users, t)
  {
    var made := Stored(users, Cleared(users, OptionOff(t), SLOTS));
    forall a | 0 <= a < SLOTS
      ensures made.slots[a] == ImageOf(users, t).slots[a]
    {
      LastForIsPort(users, a);
      if a !in Ports(users) {
        WrittenElsewhere(users, a, ZEROS);
      }
    }
    assert made.slots == ImageOf(users, t).slots;
    assert made.eeprom == ImageOf(users, t).eeprom;
  }

  /** One user was, or was not, written into the slot of their address. */
  ghost predicate UserWritten(u: User, before: Tables, after: Tables, surely: bool) {
    var a := u.controllerPort;
    if 0 <= a < |before.slots| && Credentials(u).Some? then
      && (after == before || after == before.WithSlot(a, RecordFor(u, before.slots[a])))
      && (surely ==> after.slots[a] == RecordFor(u, before.slots[a]))
    else after == before && !surely
  }

  lemma SaneWrite(users: seq<User>, u: User, was: Tables, before: Tables, after: Tables)
    requires u in users && SaneTables(users, was, before) && UserWritten(u, before, after, false)
    ensures SaneTables(users, was, after)
  {
    var a := u.controllerPort;
    if 0 <= a < |before.slots| && Credentials(u).Some? {
      var record := RecordFor(u, before.slots[a]);
      assert record[..H_RECORD - 1] == Credentials(u).value;
      SaneStep(users, was, before, after, a, record);
    }
  }

  /** Apart from this node's tables, only new events. */
  ghost predicate Around(t0: map<byte, Tables>, t1: map<byte, Tables>, f0: map<byte, Fifo>, f1: map<byte, Fifo>,
                         node: byte) {
    OnlyNode(t0, t1, node) && Grown(f0, f1)
  }

  lemma AroundTwice(t0: map<byte, Tables>, t1: map<byte, Tables>, t2: map<byte, Tables>,
                    f0: map<byte, Fifo>, f1: map<byte, Fifo>, f2: map<byte, Fifo>, node: byte)
    requires Around(t0, t1, f0, f1, node) && Around(t1, t2, f1, f2, node)
    ensures Around(t0, t2, f0, f2, node)
  {
    GrownTwice(f0, f1, f2);
  }

  lemma SaneTwice(users: seq<User>, a: Tables, b: Tables, c: Tables)
    requires SaneTables(users, a, b) && SaneTables(users, b, c)
    ensures SaneTables(users, a, c)
  {
    forall i | 0 <= i < |a.slots|
      ensures Sane(users, i, a.slots[i], c.slots[i])
    {
      assert Sane(users, i, a.slots[i], b.slots[i]) && Sane(users, i, b.slots[i], c.slots[i]);
    }
  }

  lemma SaneThrice(users: seq<User>, was: Tables, mid: Tables, now: Tables)
    requires was.WellFormed() && SaneTables(users, OptionOff(was), mid) && SaneTables(users, mid, now)
    ensures SaneTables(users, was, now)
  {
    SaneTwice(users, OptionOff(was), mid, now);
    assert SaneTables(users, was, OptionOff(was));
    SaneTwice(users, was, OptionOff(was), now);
  }

  /** What holds of the tables however the steps went. */
  ghost predicate Reached(users: seq<User>, nodes: seq<byte>, was: map<byte, Tables>, now: map<byte, Tables>) {
    && was.Keys == now.Keys
    && forall n :: n in was ==>
      SaneTables(users, was[n], now[n]) && (n !in nodes ==> now[n] == was[n])
  }

  lemma ReachedStep(users: seq<User>, nodes: seq<byte>, a: map<byte, Tables>, b: map<byte, Tables>,
                    c: map<byte, Tables>, node: byte)
    requires Reached(users, nodes, a, b) && OnlyNode(b, c, node)
    requires node in b ==> SaneTables(users, b[node], c[node])
    ensures Reached(users, nodes + [node], a, c)
  {
    forall n | n in a
      ensures SaneTables(users, a[n], c[n]) && (n !in nodes + [node] ==> c[n] == a[n])
    {
      assert SaneTables(users, a[n], b[n]);
      if n == node {
        SaneTwice(users, a[n], b[n], c[n]);
        assert node in nodes + [node];
      } else if n in nodes {
        assert n in nodes + [node];
      }
    }
  }

  /** What holds of the tables when every step succeeded: each listed node has its image. */
  ghost predicate Synced(users: seq<User>, nodes: seq<byte>, was: map<byte, Tables>, now: map<byte, Tables>)
    requires AllWellFormed(was)
  {
    && now == ImageOfAll(users, nodes, was)
    && (forall n :: n in nodes ==> n in now)
    && (nodes != [] ==> AllWritable(users))
  }

  lemma SyncedStep(users: seq<User>, nodes: seq<byte>, a: map<byte, Tables>, b: map<byte, Tables>,
                   c: map<byte, Tables>, node: byte)
    requires AllWellFormed(a) && Synced(users, nodes, a, b) && OnlyNode(b, c, node)
    requires node in b && c[node] == ImageOf(users, b[node]) && AllWritable(users)
    ensures Synced(users, nodes + [node], a, c)
  {
    assert (nodes + [node])[..|nodes|] == nodes;
    assert c == b[node := ImageOf(users, b[node])];
  }

  lemma CleanNodesStep(users: seq<User>, nodes: seq<byte>, node: byte, r0: seq<Step>, r: seq<Step>, s: seq<Step>,
                       d: int,
                       a: map<byte, Tables>, b: map<byte, Tables>, c: map<byte, Tables>)
    requires AllWellFormed(a) && AllWellFormed(b) && Noted(r, s, node, d)
    requires CleanNodesSynced(users, nodes, r0, r, a, b) && Reached(users, nodes, a, b) && OnlyNode(b, c, node)
    requires d == 0 ==> NodeSynced(users, b, c, node)
    ensures CleanNodesSynced(users, nodes + [node], r0, s, a, c)
  {
    forall n
      ensures Bad(s, n) >= Bad(r0, n)
      ensures ListedOnce(nodes + [node], n) && Bad(s, n) == Bad(r0, n) ==> NodeSynced(users, a, c, n)
    {
      assert Bad(r, n) >= Bad(r0, n);
      ListedOnceSnoc(nodes, node, n);
    }
  }

  lemma MoreSteps(a: nat, b: nat, n: nat)
    requires a > b && n > 0
    ensures a * n > b * n
  {
  }

  lemma ReachedStart(users: seq<User>, nodes: seq<byte>, t: map<byte, Tables>)
    ensures Reached(users, nodes, t, t)
  {
  }

  lemma ReachedTwice(users: seq<User>, nodes: seq<byte>, a: map<byte, Tables>, b: map<byte, Tables>,
                     c: map<byte, Tables>)
    requires Reached(users, nodes, a, b) && Reached(users, nodes, b, c)
    ensures Reached(users, nodes, a, c)
  {
    forall n | n in a
      ensures SaneTables(users, a[n], c[n]) && (n !in nodes ==> c[n] == a[n])
    {
      SaneTwice(users, a[n], b[n], c[n]);
    }
  }

  /** One user stored on every listed node. */
  function StoredOn(u: User, nodes: seq<byte>, tables: map<byte, Tables>): (r: map<byte, Tables>)
    ensures r.Keys == tables.Keys
  {
    if nodes == [] then tables
    else
      var before, n := StoredOn(u, nodes[..|nodes| - 1], tables), nodes[|nodes| - 1];
      if n in before then before[n := Stored([u], before[n])] else before
  }

  /** Every user stored on every listed node, user by user. */
  function StoredOnAll(users: seq<User>, nodes: seq<byte>, tables: map<byte, Tables>): (r: map<byte, Tables>)
    ensures r.Keys == tables.Keys
  {
    if users == [] then tables
    else StoredOn(users[|users| - 1], nodes, StoredOnAll(users[..|users| - 1], nodes, tables))
  }

  lemma StoredOnAllSnoc(users: seq<User>, i: nat, nodes: seq<byte>, tables: map<byte, Tables>)
    requires i < |users|
    ensures StoredOnAll(users[..i + 1], nodes, tables) == StoredOn(users[i], nodes, StoredOnAll(users[..i], nodes, tables))
  {
    assert users[..i + 1][..i] == users[..i];
  }

  lemma StoredStep(u: User, nodes: seq<byte>, j: nat, tables: map<byte, Tables>, t: map<byte, Tables>,
                   now: map<byte, Tables>)
    requires j < |nodes| && t == StoredOn(u, nodes[..j], tables) && OnlyNode(t, now, nodes[j])
    requires nodes[j] in t && UserWritten(u, t[nodes[j]], now[nodes[j]], true)
    ensures now == StoredOn(u, nodes[..j + 1], tables)
  {
    var node := nodes[j];
    OneStored(u, t[node], now[node]);
    OnlyNodeIsUpdate(t, now, node);
    assert nodes[..j + 1][..j] == nodes[..j];
  }

  lemma OneStored(u: User, before: Tables, now: Tables)
    requires UserWritten(u, before, now, true)
    ensures now == Stored([u], before)
  {
    assert Stored([], before).slots == before.slots;
    UserStored([], u, [u], before, before, now);
  }

  lemma OnlyNodeIsUpdate(t: map<byte, Tables>, now: map<byte, Tables>, node: byte)
    requires OnlyNode(t, now, node) && node in t
    ensures now == t[node := now[node]]
  {
  }

  lemma ReachedWrite(users: seq<User>, u: User, nodes: seq<byte>, j: nat, a: map<byte, Tables>, t: map<byte, Tables>,
                     now: map<byte, Tables>)
    requires j < |nodes| && u in users && Reached(users, nodes[..j], a, t) && OnlyNode(t, now, nodes[j])
    requires nodes[j] in t ==> UserWritten(u, t[nodes[j]], now[nodes[j]], false)
    ensures Reached(users, nodes[..j + 1], a, now)
  {
    var node := nodes[j];
    if node in t {
      SaneWrite(users, u, t[node], t[node], now[node]);
    }
    ReachedStep(users, nodes[..j], a, t, now, node);
    assert nodes[..j + 1] == nodes[..j] + [node];
  }

  lemma {:induction false} StoredOnMeaning(u: User, nodes: seq<byte>, tables: map<byte, Tables>, n: byte)
    requires n in tables
    ensures n !in nodes ==> StoredOn(u, nodes, tables)[n] == tables[n]
    ensures ListedOnce(nodes, n) ==> StoredOn(u, nodes, tables)[n] == Stored([u], tables[n])
  {
    if nodes != [] {
      var m := |nodes| - 1;
      StoredOnMeaning(u, nodes[..m], tables, n);
      assert nodes == nodes[..m] + [nodes[m]];
      ListedOnceSnoc(nodes[..m], nodes[m], n);
    }
  }

  lemma StoredSnoc(users: seq<User>, u: User, t: Tables)
    ensures Stored([u], Stored(users, t)) == Stored(users + [u], t)
  {
    assert (users + [u])[..|users|] == users;
    var twice := Stored([u], Stored(users, t));
    forall a | 0 <= a < |t.slots|
      ensures twice.slots[a] == Stored(users + [u], t).slots[a]
    {
      assert Written([], a, Written(users, a, t.slots[a])) == Written(users, a, t.slots[a]);
      assert [u][..0] == [];
    }
    assert twice.slots == Stored(users + [u], t).slots;
  }

  /** User by user over the nodes is, for each node listed once, all its users in order. */
  lemma {:induction false} StoredOnAllMeaning(users: seq<User>, nodes: seq<byte>, tables: map<byte, Tables>, n: byte)
    requires n in tables
    ensures n !in nodes ==> StoredOnAll(users, nodes, tables)[n] == tables[n]
    ensures ListedOnce(nodes, n) ==> StoredOnAll(users, nodes, tables)[n] == Stored(users, tables[n])
  {
    if users == [] {
      assert Stored([], tables[n]).slots == tables[n].slots;
    } else {
      var m := |users| - 1;
      StoredOnAllMeaning(users[..m], nodes, tables, n);
      StoredOnMeaning(users[m], nodes, StoredOnAll(users[..m], nodes, tables), n);
      StoredSnoc(users[..m], users[m], tables[n]);
      assert users[..m] + [users[m]] == users;
    }
  }

  /** The image of a node, slot by slot and byte by byte. */
  ghost predicate ExactImage(users: seq<User>, was: Tables, now: Tables) {
    && was.WellFormed() && now.WellFormed()
    && (forall a :: 0 <= a < SLOTS ==>
         var k, r := LastFor(users, a), now.slots[a];
         if k < 0 then r == ZEROS
         else
           && |r| == H_RECORD && Credentials(users[k]).Some? && r[..H_RECORD - 1] == Credentials(users[k]).value
           && (OwnSlots(users) ==> r[H_RECORD - 1] == ZoneFor(was.slots[a])))
    && (forall i :: 0 <= i < 8 ==>
         (Bit(i, now.eeprom[ASSIGNED_FUNCTIONS]) <==> i != 5 && Bit(i, was.eeprom[ASSIGNED_FUNCTIONS])))
    && (forall e :: 0 <= e < EEPROM_SIZE && e != ASSIGNED_FUNCTIONS ==> now.eeprom[e] == was.eeprom[e])
  }

  lemma ImageIsExact(users: seq<User>, was: Tables, now: Tables)
    requires was.WellFormed() && AllWritable(users) && now == ImageOf(users, was)
    ensures ExactImage(users, was, now)
  {
    ImageIsWellFormed(users, was);
    forall a | 0 <= a < SLOTS
      ensures var k, r := LastFor(users, a), now.slots[a];
              if k < 0 then r == ZEROS
              else |r| == H_RECORD && Credentials(users[k]).Some? && r[..H_RECORD - 1] == Credentials(users[k]).value
                   && (OwnSlots(users) ==> r[H_RECORD - 1] == ZoneFor(was.slots[a]))
    {
      ImageMeaning(users, was, a);
      if LastFor(users, a) >= 0 {
        assert users[LastFor(users, a)] in users;
      }
    }
    forall i | 0 <= i < 8
      ensures Bit(i, now.eeprom[ASSIGNED_FUNCTIONS]) <==> i != 5 && Bit(i, was.eeprom[ASSIGNED_FUNCTIONS])
    {
      ClearBit5Bits(was.eeprom[ASSIGNED_FUNCTIONS], i);
    }
  }

  /** What a full synchronisation means for a node, whatever happened on the others: listed once and
      without a failed result it is exact, slot by slot; unlisted it is untouched. */
  lemma FullSyncIsExact(users: seq<User>, nodes: seq<byte>, results: seq<Step>, was: map<byte, Tables>,
                        now: map<byte, Tables>, n: byte)
    requires AllWellFormed(was) && Reached(users, nodes, was, now) && CleanNodesSynced(users, nodes, [], results, was, now)
    ensures now.Keys == was.Keys
    ensures n in was && n !in nodes ==> now[n] == was[n]
    ensures ListedOnce(nodes, n) && Bad(results, n) == 0 ==> n in was && n in now && ExactImage(users, was[n], now[n])
  {
    if ListedOnce(nodes, n) && Bad(results, n) == 0 {
      assert NodeSynced(users, was, now, n);
      ImageIsExact(users, was[n], now[n]);
    }
  }

  /** Every node that is listed once, and of which no new failure is listed, holds these users. */
  ghost predicate CleanNodesStored(users: seq<User>, nodes: seq<byte>, r0: seq<Step>, r: seq<Step>,
                                   was: map<byte, Tables>, now: map<byte, Tables>) {
    forall n :: Bad(r, n) >= Bad(r0, n) && (ListedOnce(nodes, n) && Bad(r, n) == Bad(r0, n) ==> NodeStored(users, was, now, n))
  }

  ghost predicate NodeStored(users: seq<User>, was: map<byte, Tables>, now: map<byte, Tables>, n: byte) {
    && (users != [] ==> n in was)
    && (n in was ==> n in now && now[n] == Stored(users, was[n]))
  }

  lemma CleanNodesWrite(u: User, users: seq<User>, nodes: seq<byte>, j: nat, r0: seq<Step>, r: seq<Step>,
                        s: seq<Step>, d: int,
                        a: map<byte, Tables>, b: map<byte, Tables>, c: map<byte, Tables>)
    requires j < |nodes| && Noted(r, s, nodes[j], d) && Reached(users, nodes[..j], a, b) && OnlyNode(b, c, nodes[j])
    requires CleanNodesStored([u], nodes[..j], r0, r, a, b)
    requires d == 0 ==> nodes[j] in b && UserWritten(u, b[nodes[j]], c[nodes[j]], true)
    ensures CleanNodesStored([u], nodes[..j + 1], r0, s, a, c)
  {
    var node := nodes[j];
    assert nodes[..j + 1] == nodes[..j] + [node];
    forall n
      ensures Bad(s, n) >= Bad(r0, n)
      ensures ListedOnce(nodes[..j + 1], n) && Bad(s, n) == Bad(r0, n) ==> NodeStored([u], a, c, n)
    {
      assert Bad(r, n) >= Bad(r0, n);
      ListedOnceSnoc(nodes[..j], node, n);
      if n == node && d == 0 {
        OneStored(u, b[node], c[node]);
      }
    }
  }

  lemma CleanNodesUser(users: seq<User>, i: nat, nodes: seq<byte>, r0: seq<Step>, r: seq<Step>, s: seq<Step>,
                       a: map<byte, Tables>, b: map<byte, Tables>, c: map<byte, Tables>)
    requires i < |users| && a.Keys == b.Keys && CleanNodesStored(users[..i], nodes, r0, r, a, b) && CleanNodesStored([users[i]], nodes, r, s, b, c)
    ensures CleanNodesStored(users[..i + 1], nodes, r0, s, a, c)
  {
    assert users[..i + 1] == users[..i] + [users[i]];
    forall n
      ensures Bad(s, n) >= Bad(r0, n)
      ensures ListedOnce(nodes, n) && Bad(s, n) == Bad(r0, n) ==> NodeStored(users[..i + 1], a, c, n)
    {
      assert Bad(r, n) >= Bad(r0, n) && Bad(s, n) >= Bad(r, n);
      if ListedOnce(nodes, n) && Bad(s, n) == Bad(r0, n) {
        assert NodeStored(users[..i], a, b, n) && NodeStored([users[i]], b, c, n);
        if n in a {
          StoredSnoc(users[..i], users[i], a[n]);
        }
      }
    }
  }

  lemma NoneStored(nodes: seq<byte>, r: seq<Step>, a: map<byte, Tables>)
    ensures CleanNodesStored([], nodes, r, r, a, a)
  {
    forall n | n in a
      ensures Stored([], a[n]) == a[n]
    {
      assert Stored([], a[n]).slots == a[n].slots;
    }
  }

  class UploadWorker {
    const bus: Bus
    const proto: Unex721Protocol
    const job: UploadJob

    constructor (bus: Bus, job: UploadJob)
      ensures this.bus == bus && this.job == job && proto.bus == bus
    {
      this.bus := bus;
      this.job := job;
      proto := new Unex721Protocol(bus);
    }

    ghost predicate Valid()
      reads this, proto, bus, job
    {
      proto.bus == bus && bus.Valid() && job.Balanced()
    }

    /** Zeroes one absent address and notes the result. */
    method ClearOne(node: byte, users: seq<User>, address: nat)
      requires Valid() && node in bus.tables && address < SLOTS
      modifies bus, job`completed, job`success, job`failed, job`skipped, job`results
      ensures Valid() && Around(old(bus.tables), bus.tables, old(bus.fifos), bus.fifos, node)
      ensures var was, now := old(bus.tables)[node], bus.tables[node];
              && (now == was || now == was.WithSlot(address, ZEROS))
              && (job.Troubles() == old(job.Troubles()) ==> now.slots[address] == ZEROS)
      ensures job.completed == old(job.completed) + 1 && job.Troubles() >= old(job.Troubles())
      ensures Noted(old(job.results), job.results, node, job.Troubles() - old(job.Troubles()))
    {
      var out := proto.ClearUserSlot(node, address);
      var step := Step(0, node, out.status);
      job.Append(step, out.ok, false, !out.ok);
      NotedOne(old(job.results), job.results, step, !out.ok);
    }

    /** Writes one listed user and notes the result. */
    method WriteOne(node: byte, u: User)
      requires Valid()
      modifies bus, job`completed, job`success, job`failed, job`skipped, job`results
      ensures Valid() && Around(old(bus.tables), bus.tables, old(bus.fifos), bus.fifos, node)
      ensures job.Troubles() == old(job.Troubles()) ==> node in bus.tables
      ensures node in bus.tables ==> UserWritten(u, old(bus.tables)[node], bus.tables[node], job.Troubles() == old(job.Troubles()))
      ensures job.completed == old(job.completed) + 1 && job.Troubles() >= old(job.Troubles())
      ensures Noted(old(job.results), job.results, node, job.Troubles() - old(job.Troubles()))
    {
      var out := proto.WriteUser(node, u);
      var step := Step(u.id, node, out.status);
      job.Append(step, out.ok, out.status == Skipped, true);
      NotedOne(old(job.results), job.results, step, true);
    }

    /** Phase 1: every address that is not listed is zeroed. */
    method ClearAbsent(node: byte, users: seq<User>)
      requires Valid() && node in bus.tables
      modifies bus, job`completed, job`success, job`failed, job`skipped, job`results
      ensures Valid() && Around(old(bus.tables), bus.tables, old(bus.fifos), bus.fifos, node)
      ensures SaneTables(users, old(bus.tables)[node], bus.tables[node])
      ensures job.completed == old(job.completed) + Absent(users, SLOTS)
      ensures job.Troubles() >= old(job.Troubles())
      ensures job.Troubles() == old(job.Troubles()) ==>
        bus.tables[node] == Cleared(users, old(bus.tables)[node], SLOTS)
      ensures Noted(old(job.results), job.results, node, job.Troubles() - old(job.Troubles()))
    {
      ghost var tables, fifos := bus.tables, bus.fifos;
      ghost var was := tables[node];
      var address := 0;
      assert Cleared(users, was, 0).slots == was.slots;
      while address <= 1023
        invariant 0 <= address <= SLOTS
        invariant Valid() && Around(tables, bus.tables, fifos, bus.fifos, node)
        invariant SaneTables(users, was, bus.tables[node])
        invariant job.completed == old(job.completed) + Absent(users, address)
        invariant job.Troubles() >= old(job.Troubles())
        invariant job.Troubles() == old(job.Troubles()) ==> bus.tables[node] == Cleared(users, was, address)
        invariant Noted(old(job.results), job.results, node, job.Troubles() - old(job.Troubles()))
      {
        if address !in Ports(users) {
          ghost var t, f, troubles, results := bus.tables, bus.fifos, job.Troubles(), job.results;
          ClearOne(node, users, address);
          NotedTwice(old(job.results), results, job.results, node, troubles - old(job.Troubles()), job.Troubles() - troubles);
          AroundTwice(tables, t, bus.tables, fifos, f, bus.fifos, node);
          SaneStep(users, was, t[node], bus.tables[node], address, ZEROS);
          if job.Troubles() == old(job.Troubles()) {
            ClearStep(users, was, address, bus.tables[node]);
          }
        } else {
          ListedStays(users, was, address);
        }
        address := address + 1;
      }
    }

    /** What holds after the first users of the list were written. */
    ghost predicate Listing(node: byte, users: seq<User>, done: seq<User>, tables: map<byte, Tables>,
                            fifos: map<byte, Fifo>,
                            results: seq<Step>, completed: nat, troubles: nat)
      reads this, proto, bus, job
    {
      && Valid() && Around(tables, bus.tables, fifos, bus.fifos, node) && node in tables && node in bus.tables
      && SaneTables(users, tables[node], bus.tables[node])
      && job.completed == completed + |done| && job.Troubles() >= troubles
      && (job.Troubles() == troubles ==> bus.tables[node] == Stored(done, tables[node]) && AllWritable(done))
      && Noted(results, job.results, node, job.Troubles() - troubles)
    }

    method WriteNext(node: byte, u: User, ghost users: seq<User>, ghost done: seq<User>, ghost next: seq<User>,
                     ghost tables: map<byte, Tables>,
                     ghost fifos: map<byte, Fifo>, ghost results: seq<Step>, ghost completed: nat, ghost troubles: nat)
      requires Listing(node, users, done, tables, fifos, results, completed, troubles)
      requires u in users && next == done + [u]
      modifies bus, job`completed, job`success, job`failed, job`skipped, job`results
      ensures Listing(node, users, next, tables, fifos, results, completed, troubles)
    {
      ghost var t, f, n, r := bus.tables, bus.fifos, job.Troubles(), job.results;
      WriteOne(node, u);
      NotedTwice(results, r, job.results, node, n - troubles, job.Troubles() - n);
      AroundTwice(tables, t, bus.tables, fifos, f, bus.fifos, node);
      SaneWrite(users, u, tables[node], t[node], bus.tables[node]);
      if job.Troubles() == troubles {
        UserStored(done, u, next, tables[node], t[node], bus.tables[node]);
      }
    }

    /** Phase 2: the listed users are written into their slots, in order. */
    method WriteListed(node: byte, users: seq<User>)
      requires Valid() && node in bus.tables
      modifies bus, job`completed, job`success, job`failed, job`skipped, job`results
      ensures Valid() && Around(old(bus.tables), bus.tables, old(bus.fifos), bus.fifos, node)
      ensures SaneTables(users, old(bus.tables)[node], bus.tables[node])
      ensures job.completed == old(job.completed) + |users|
      ensures job.Troubles() >= old(job.Troubles())
      ensures job.Troubles() == old(job.Troubles()) ==>
        bus.tables[node] == Stored(users, old(bus.tables)[node]) && AllWritable(users)
      ensures Noted(old(job.results), job.results, node, job.Troubles() - old(job.Troubles()))
    {
      ghost var tables, fifos, results, completed, troubles := bus.tables, bus.fifos, job.results, job.completed, job.Troubles();
      assert Stored([], tables[node]).slots == tables[node].slots;
      for i := 0 to |users|
        invariant Listing(node, users, users[..i], tables, fifos, results, completed, troubles)
      {
        assert users[..i + 1] == users[..i] + [users[i]];
        WriteNext(node, users[i], users, users[..i], users[..i + 1], tables, fifos, results, completed, troubles);
      }
      assert users[..|users|] == users;
    }

    /** Phase 0: the "any card passes" option is switched off. */
    method DisableOption(node: byte) returns (ok: bool)
      requires Valid()
      modifies bus, job`completed, job`success, job`failed, job`skipped, job`results
      ensures Valid() && Around(old(bus.tables), bus.tables, old(bus.fifos), bus.fifos, node)
      ensures ok ==> node in old(bus.tables) && bus.tables[node] == OptionOff(old(bus.tables)[node])
      ensures node in old(bus.tables) ==> bus.tables[node] in {old(bus.tables)[node], OptionOff(old(bus.tables)[node])}
      ensures job.completed == old(job.completed) + 1 && job.skipped == old(job.skipped)
      ensures job.failed == old(job.failed) + (if ok then 0 else 1)
      ensures Noted(old(job.results), job.results, node, if ok then 0 else 1)
    {
      ghost var t0 := bus.tables;
      var out := proto.DisablePassAnyCards(node);
      if node in t0 {
        OptionSettled(t0, bus.tables, node);
      }
      var step := Step(0, node, out.status);
      job.Append(step, out.ok, false, true);
      NotedOne(old(job.results), job.results, step, true);
      ok := out.ok;
    }

    /** The three phases of one node. A node whose first phase fails is charged all its steps. */
    method SyncNode(node: byte, users: seq<User>)
      requires Valid()
      modifies bus, job`completed, job`success, job`failed, job`skipped, job`results
      ensures Valid() && Around(old(bus.tables), bus.tables, old(bus.fifos), bus.fifos, node)
      ensures node in old(bus.tables) ==> SaneTables(users, old(bus.tables)[node], bus.tables[node])
      ensures job.completed == old(job.completed) + StepsPerNode(users)
           || (job.completed == old(job.completed) + SLOTS + 1 && job.skipped == old(job.skipped) + SLOTS)
      ensures job.Troubles() >= old(job.Troubles())
      ensures job.Troubles() == old(job.Troubles()) ==>
        && AllWritable(users)
        && job.completed == old(job.completed) + StepsPerNode(users)
        && node in old(bus.tables)
        && bus.tables[node] == ImageOf(users, old(bus.tables)[node])
      ensures exists d :: Noted(old(job.results), job.results, node, d) && (d == 0 <==> job.Troubles() == old(job.Troubles()))
    {
      ghost var t0, f0 := bus.tables, bus.fifos;
      var ok := DisableOption(node);
      if !ok {
        job.completed := job.completed + SLOTS;
        job.skipped := job.skipped + SLOTS;
        assert Noted(old(job.results), job.results, node, 1);
        return;
      }
      ghost var t1, f1, r1, n1 := bus.tables, bus.fifos, job.results, job.Troubles();
      ClearAbsent(node, users);
      ghost var t2, f2, r2, n2 := bus.tables, bus.fifos, job.results, job.Troubles();
      NotedTwice(old(job.results), r1, r2, node, 0, n2 - n1);
      AroundTwice(t0, t1, t2, f0, f1, f2, node);
      WriteListed(node, users);
      AroundTwice(t0, t2, bus.tables, f0, f2, bus.fifos, node);
      NotedTwice(old(job.results), r2, job.results, node, n2 - n1, job.Troubles() - n2);
      SaneThrice(users, t0[node], t2[node], bus.tables[node]);
      PhasesMakeImage(users, t0[node]);
    }

    /** What holds after the first nodes of the list were dealt with. */
    ghost predicate Syncing(users: seq<User>, done: seq<byte>, tables: map<byte, Tables>, fifos: map<byte, Fifo>,
                            results: seq<Step>, completed: nat, troubles: nat)
      requires AllWellFormed(tables)
      reads this, proto, bus, job
    {
      && Valid() && Grown(fifos, bus.fifos)
      && Reached(users, done, tables, bus.tables)
      && job.Troubles() >= troubles
      && (job.Troubles() == troubles ==>
           Synced(users, done, tables, bus.tables) && job.completed == completed + Repeated(StepsPerNode(users), |done|))
      && (OwnSlots(users) ==> job.completed == completed + (SLOTS + 1) * |done|)
      && CleanNodesSynced(users, done, results, job.results, tables, bus.tables)
    }

    method SyncNext(node: byte, users: seq<User>, ghost done: seq<byte>, ghost next: seq<byte>,
                    ghost tables: map<byte, Tables>,
                    ghost fifos: map<byte, Fifo>, ghost results: seq<Step>, ghost completed: nat, ghost troubles: nat)
      requires AllWellFormed(tables) && Syncing(users, done, tables, fifos, results, completed, troubles)
      requires next == done + [node]
      modifies bus, job`completed, job`success, job`failed, job`skipped, job`results
      ensures Syncing(users, next, tables, fifos, results, completed, troubles)
    {
      ghost var t, f, n, r := bus.tables, bus.fifos, job.Troubles(), job.results;
      SyncNode(node, users);
      GrownTwice(fifos, f, bus.fifos);
      StepsAreTotal(users);
      ReachedStep(users, done, tables, t, bus.tables, node);
      ghost var d :| Noted(r, job.results, node, d) && (d == 0 <==> job.Troubles() == n);
      CleanNodesStep(users, done, node, results, r, job.results, d, tables, t, bus.tables);
      if job.Troubles() == troubles {
        SyncedStep(users, done, tables, t, bus.tables, node);
      }
    }

    method FullSync(users: seq<User>, nodes: seq<byte>)
      requires Valid()
      modifies bus, job`completed, job`success, job`failed, job`skipped, job`results
      ensures Valid() && Grown(old(bus.fifos), bus.fifos)
      ensures Reached(users, nodes, old(bus.tables), bus.tables)
      ensures job.Troubles() >= old(job.Troubles())
      ensures job.Troubles() == old(job.Troubles()) ==>
        && Synced(users, nodes, old(bus.tables), bus.tables)
        && job.completed == old(job.completed) + StepsPerNode(users) * |nodes|
      ensures OwnSlots(users) ==> job.completed == old(job.completed) + (SLOTS + 1) * |nodes|
      ensures CleanNodesSynced(users, nodes, old(job.results), job.results, old(bus.tables), bus.tables)
    {
      ghost var tables, fifos, results, completed, troubles := bus.tables, bus.fifos, job.results, job.completed, job.Troubles();
      for i := 0 to |nodes|
        invariant Syncing(users, nodes[..i], tables, fifos, results, completed, troubles)
      {
        assert nodes[..i + 1] == nodes[..i] + [nodes[i]];
        SyncNext(nodes[i], users, nodes[..i], nodes[..i + 1], tables, fifos, results, completed, troubles);
      }
      assert nodes[..|nodes|] == nodes;
      RepeatedIsProduct(StepsPerNode(users), |nodes|);
    }

    /** One user to every node, in order. */
    method UploadUser(users: seq<User>, u: User, nodes: seq<byte>)
      requires Valid() && u in users
      modifies bus, job`completed, job`success, job`failed, job`skipped, job`results
      ensures Valid() && Grown(old(bus.fifos), bus.fifos)
      ensures Reached(users, nodes, old(bus.tables), bus.tables)
      ensures job.completed == old(job.completed) + |nodes| && job.Troubles() >= old(job.Troubles())
      ensures job.Troubles() == old(job.Troubles()) ==> bus.tables == StoredOn(u, nodes, old(bus.tables))
      ensures CleanNodesStored([u], nodes, old(job.results), job.results, old(bus.tables), bus.tables)
    {
      ghost var tables, fifos, r0 := bus.tables, bus.fifos, job.results;
      for j := 0 to |nodes|
        invariant Valid() && Grown(fifos, bus.fifos)
        invariant Reached(users, nodes[..j], tables, bus.tables)
        invariant job.completed == old(job.completed) + j && job.Troubles() >= old(job.Troubles())
        invariant job.Troubles() == old(job.Troubles()) ==> bus.tables == StoredOn(u, nodes[..j], tables)
        invariant CleanNodesStored([u], nodes[..j], r0, job.results, tables, bus.tables)
      {
        ghost var t, f, n, r := bus.tables, bus.fifos, job.Troubles(), job.results;
        WriteOne(nodes[j], u);
        CleanNodesWrite(u, users, nodes, j, r0, r, job.results, job.Troubles() - n, tables, t, bus.tables);
        GrownTwice(fifos, f, bus.fifos);
        ReachedWrite(users, u, nodes, j, tables, t, bus.tables);
        if job.Troubles() == old(job.Troubles()) {
          StoredStep(u, nodes, j, tables, t, bus.tables);
        }
      }
      assert nodes[..|nodes|] == nodes;
    }

    /** The selective upload: no slot is cleared, each user goes to each node. */
    method PlainUpload(users: seq<User>, nodes: seq<byte>)
      requires Valid()
      modifies bus, job`completed, job`success, job`failed, job`skipped, job`results
      ensures Valid() && Grown(old(bus.fifos), bus.fifos)
      ensures Reached(users, nodes, old(bus.tables), bus.tables)
      ensures job.completed == old(job.completed) + |users| * |nodes| && job.Troubles() >= old(job.Troubles())
      ensures job.Troubles() == old(job.Troubles()) ==> bus.tables == StoredOnAll(users, nodes, old(bus.tables))
      ensures CleanNodesStored(users, nodes, old(job.results), job.results, old(bus.tables), bus.tables)
    {
      ghost var tables, fifos, r0 := bus.tables, bus.fifos, job.results;
      NoneStored(nodes, r0, tables);
      ReachedStart(users, nodes, tables);
      for i := 0 to |users|
        invariant Valid() && Grown(fifos, bus.fifos)
        invariant Reached(users, nodes, tables, bus.tables)
        invariant job.completed == old(job.completed) + Repeated(|nodes|, i) && job.Troubles() >= old(job.Troubles())
        invariant job.Troubles() == old(job.Troubles()) ==> bus.tables == StoredOnAll(users[..i], nodes, tables)
        invariant CleanNodesStored(users[..i], nodes, r0, job.results, tables, bus.tables)
      {
        ghost var t, f, r := bus.tables, bus.fifos, job.results;
        UploadUser(users, users[i], nodes);
        CleanNodesUser(users, i, nodes, r0, r, job.results, tables, t, bus.tables);
        GrownTwice(fifos, f, bus.fifos);
        ReachedTwice(users, nodes, tables, t, bus.tables);
        StoredOnAllSnoc(users, i, nodes, tables);
      }
      assert users[..|users|] == users;
      RepeatedIsProduct(|nodes|, |users|);
    }

    /** The whole job. When it ends without a failed or skipped step, the tables of every listed node
        are exactly what was asked for, and with users that each have their own slot every announced
        step was counted. */
    method ProcessUpload(users: seq<User>, nodes: seq<byte>, fullSync: bool)
      requires Valid() && job.completed == 0 && job.results == []
      requires job.total == if fullSync then (SLOTS + 1) * |nodes| else |users| * |nodes|
      modifies bus, job
      ensures Valid() && job.state == Completed && Grown(old(bus.fifos), bus.fifos)
      ensures Reached(users, nodes, old(bus.tables), bus.tables)
      ensures job.failed == 0 && job.skipped == 0 ==>
        if fullSync then Synced(users, nodes, old(bus.tables), bus.tables)
        else bus.tables == StoredOnAll(users, nodes, old(bus.tables))
      ensures if fullSync then CleanNodesSynced(users, nodes, [], job.results, old(bus.tables), bus.tables)
              else CleanNodesStored(users, nodes, [], job.results, old(bus.tables), bus.tables)
      ensures !fullSync || OwnSlots(users) ==> job.completed == job.total
      ensures fullSync && job.failed == 0 && job.skipped == 0 ==>
        (job.completed == job.total <==> nodes == [] || OwnSlots(users))
    {
      job.state := Running;
      if fullSync {
        FullSync(users, nodes);
        StepsAreTotal(users);
        if StepsPerNode(users) > SLOTS + 1 && nodes != [] {
          MoreSteps(StepsPerNode(users), SLOTS + 1, |nodes|);
        }
      } else {
        PlainUpload(users, nodes);
      }
      job.state := Completed;
    }
  }
}
