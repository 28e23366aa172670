/** What a read job reports after a full synchronisation. */
module SyncedReads {
  import opened Bytes
  import opened Wrappers
  import opened Types
  import opened Devices
  import opened Records
  import opened Normal
  import opened Comparison
  import opened SyncImage
  import opened UserReadJobs

  /** Users as the upload takes them: normal, enabled, with a card, and each with their own slot. */
  ghost predicate Uploadable(users: seq<User>) {
    && OwnSlots(users) && AllWritable(users)
    && forall u :: u in users ==> Normalized(u) && u.enabled
  }

  /** The lookup by address finds the user whose record the slot holds. */
  lemma {:induction false} LocalUserIsListed(users: seq<User>, a: int)
    ensures LocalUser(users, a).None? ==> a !in Ports(users)
    ensures LocalUser(users, a).Some? ==> LocalUser(users, a).value in users && LocalUser(users, a).value.controllerPort == a
  {
    if users != [] && users[0].controllerPort != a {
      LocalUserIsListed(users[1..], a);
      forall u | u in users
        ensures u == users[0] || u in users[1..]
      {
      }
    }
  }

  lemma SameSlotSameUser(users: seq<User>, i: nat, j: nat)
    requires OwnSlots(users) && i < |users| && j < |users| && users[i].controllerPort == users[j].controllerPort
    ensures i == j
  {
  }

  lemma {:induction false} WrittenAlone(users: seq<User>, a: int, record: seq<byte>)
    requires OwnSlots(users) && AllWritable(users) && LastFor(users, a) >= 0
    ensures Written(users, a, record) == RecordFor(users[LastFor(users, a)], record)
  {
    var rest, u := users[..|users| - 1], users[|users| - 1];
    assert u in users;
    if u.controllerPort == a {
      OnlyUser(users, a);
      WrittenElsewhere(rest, a, record);
    } else {
      assert LastFor(users, a) == LastFor(rest, a) && rest[LastFor(rest, a)] == users[LastFor(rest, a)];
      WrittenAlone(rest, a, record);
    }
  }

  lemma LocalIsLast(users: seq<User>, a: int)
    requires OwnSlots(users) && a in Ports(users)
    ensures LastFor(users, a) >= 0 && LocalUser(users, a) == Some(users[LastFor(users, a)])
  {
    LocalUserIsListed(users, a);
    LastForIsPort(users, a);
    var i :| 0 <= i < |users| && users[i] == LocalUser(users, a).value;
    SameSlotSameUser(users, i, LastFor(users, a));
  }

  lemma ListedSlot(users: seq<User>, t: Tables, a: int, u: User)
    requires t.WellFormed() && Uploadable(users) && 0 <= a < SLOTS && LocalUser(users, a) == Some(u)
    ensures u in users && u.controllerPort == a && a in Ports(users)
    ensures ImageOf(users, t).slots[a] == RecordFor(u, t.slots[a])
  {
    LocalUserIsListed(users, a);
    assert u.controllerPort in Ports(users);
    LocalIsLast(users, a);
    ImageSlot(users, t, a);
    WrittenAlone(users, a, t.slots[a]);
  }

  lemma UnlistedSlot(users: seq<User>, t: Tables, a: int)
    requires t.WellFormed() && 0 <= a < SLOTS && LocalUser(users, a).None?
    ensures a !in Ports(users) && ImageOf(users, t).slots[a] == ZEROS
  {
    LocalUserIsListed(users, a);
  }

  lemma ZerosAreEmpty()
    ensures Compare(None, DecodeRecord(ZEROS)) == Empty
  {
    assert AllZero(ZEROS);
  }

  /** Of a synchronised node, a read job reports a match for every listed address and an empty slot for
      every other one. */
  lemma SyncedReadsBack(users: seq<User>, t: Tables, a: int, r: seq<byte>)
    requires t.WellFormed() && Uploadable(users) && 0 <= a < SLOTS && r == ImageOf(users, t).slots[a]
    ensures Compare(LocalUser(users, a), DecodeRecord(r)) == if a in Ports(users) then Match else Empty
  {
    if LocalUser(users, a).Some? {
      var u := LocalUser(users, a).value;
      ListedSlot(users, t, a, u);
      NormalUserReadsBack(u, t.slots[a]);
    } else {
      UnlistedSlot(users, t, a);
      ZerosAreEmpty();
    }
  }

  /** So does every visit of a job that compared with the same users, unless the read itself failed. */
  lemma VisitAfterSync(l: Ledger, i: nat, tables: map<byte, Tables>, was: Tables)
    requires Accounts(l) && Reports(l, tables) && i < |l.visits| && Uploadable(l.order.users) && was.WellFormed()
    requires var n := l.visits[i].task.node; n in tables ==> tables[n] == ImageOf(l.order.users, was)
    ensures var v := l.visits[i];
            v.verdict == if v.got == NO_READ then Error
                         else if v.task.address in Ports(l.order.users) then Match else Empty
  {
    var v := l.visits[i];
    assert Faithful(v, tables);
    if v.got != NO_READ {
      SyncedReadsBack(l.order.users, was, v.task.address, tables[v.task.node].slots[v.task.address]);
    }
  }
}
