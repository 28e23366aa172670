/** The image a full synchronisation must leave, as a function of what was there before. */
module SyncImage {
  import opened Bytes
  import opened Types
  import opened Devices
  import opened Records
  import opened Protocol

  function Ports(users: seq<User>): set<int> {
    set u | u in users :: u.controllerPort
  }

  /** The record of address a after the users were written in order over `record`. */
  function Written(users: seq<User>, a: int, record: seq<byte>): seq<byte> {
    if users == [] then record
    else
      var u, r := users[|users| - 1], Written(users[..|users| - 1], a, record);
      if u.controllerPort == a && Credentials(u).Some? then RecordFor(u, r) else r
  }

  /** The desired image: listed addresses hold their user, all others eight zeros, and of the EEPROM
      only the "any card passes" bit has changed. */
  function ImageOf(users: seq<User>, t: Tables): Tables
    requires t.WellFormed()
  {
    Tables(
      seq(SLOTS, a requires 0 <= a < SLOTS => if a in Ports(users) then Written(users, a, t.slots[a]) else ZEROS),
      t.eeprom[ASSIGNED_FUNCTIONS := ClearBit5(t.eeprom[ASSIGNED_FUNCTIONS])])
  }

  /** The image of every listed node in turn. */
  function ImageOfAll(users: seq<User>, nodes: seq<byte>, tables: map<byte, Tables>): (r: map<byte, Tables>)
    requires AllWellFormed(tables)
    ensures AllWellFormed(r) && r.Keys == tables.Keys
  {
    if nodes == [] then tables
    else
      var before := ImageOfAll(users, nodes[..|nodes| - 1], tables);
      var n := nodes[|nodes| - 1];
      if n in before then
        ImageIsWellFormed(users, before[n]);
        before[n := ImageOf(users, before[n])]
      else before
  }

  lemma {:induction false} WrittenLength(users: seq<User>, a: int, record: seq<byte>)
    requires |record| <= MAX_RECORD
    ensures |Written(users, a, record)| <= MAX_RECORD
  {
    if users != [] {
      WrittenLength(users[..|users| - 1], a, record);
    }
  }

  lemma ImageIsWellFormed(users: seq<User>, t: Tables)
    requires t.WellFormed()
    ensures ImageOf(users, t).WellFormed()
  {
    forall a | 0 <= a < SLOTS
      ensures |ImageOf(users, t).slots[a]| <= MAX_RECORD
    {
      WrittenLength(users, a, t.slots[a]);
    }
  }

  /** Whatever the link does, a slot holds its old record, or zeros if it is not listed, or the card,
      PIN and mode of a user listed for it. */
  ghost predicate Sane(users: seq<User>, a: int, was: seq<byte>, now: seq<byte>) {
    || now == was
    || (a !in Ports(users) && now == ZEROS)
    || exists u :: u in users && u.controllerPort == a && Credentials(u).Some? && |now| == H_RECORD
                   && now[..H_RECORD - 1] == Credentials(u).value
  }

  ghost predicate SaneTables(users: seq<User>, was: Tables, now: Tables) {
    && |was.slots| == |now.slots|
    && (forall a :: 0 <= a < |was.slots| ==> Sane(users, a, was.slots[a], now.slots[a]))
    && |now.eeprom| == |was.eeprom|
    && forall e :: 0 <= e < |now.eeprom| && e != ASSIGNED_FUNCTIONS ==> now.eeprom[e] == was.eeprom[e]
  }

  /** No node but this one changed. */
  ghost predicate OnlyNode(before: map<byte, Tables>, after: map<byte, Tables>, node: byte) {
    before.Keys == after.Keys && forall n :: n in before && n != node ==> after[n] == before[n]
  }

  // ---- counting ----

  /** How many of the addresses below n are not listed. */
  function Absent(users: seq<User>, n: nat): nat {
    if n == 0 then 0 else Absent(users, n - 1) + (if n - 1 in Ports(users) then 0 else 1)
  }

  function ListedBelow(users: seq<User>, n: nat): set<int> {
    set a | 0 <= a < n && a in Ports(users)
  }

  lemma {:induction false} AbsentCount(users: seq<User>, n: nat)
    ensures Absent(users, n) + |ListedBelow(users, n)| == n
  {
    if n > 0 {
      AbsentCount(users, n - 1);
      assert ListedBelow(users, n) == ListedBelow(users, n - 1) + if n - 1 in Ports(users) then {n - 1} else {};
    }
  }

  /** Every user has a slot of their own. */
  ghost predicate OwnSlots(users: seq<User>) {
    && (forall i :: 0 <= i < |users| ==> 0 <= users[i].controllerPort < SLOTS)
    && forall i, j :: 0 <= i < j < |users| ==> users[i].controllerPort != users[j].controllerPort
  }

  lemma PortsSnoc(users: seq<User>, u: User)
    ensures Ports(users + [u]) == Ports(users) + {u.controllerPort}
  {
    assert forall v :: v in users + [u] <==> v in users || v == u;
  }

  lemma OwnSlotsSnoc(users: seq<User>, u: User)
    ensures OwnSlots(users + [u]) <==>
      OwnSlots(users) && 0 <= u.controllerPort < SLOTS && u.controllerPort !in Ports(users)
  {
    var all, n := users + [u], |users|;
    if OwnSlots(all) {
      assert forall i :: 0 <= i < n ==> all[i] == users[i];
      assert all[n] == u;
      forall v | v in users
        ensures v.controllerPort != u.controllerPort
      {
        var i :| 0 <= i < n && users[i] == v;
        assert all[i].controllerPort != all[n].controllerPort;
      }
    }
    if OwnSlots(users) && 0 <= u.controllerPort < SLOTS && u.controllerPort !in Ports(users) {
      assert forall i :: 0 <= i < n ==> users[i].controllerPort in Ports(users);
    }
  }

  lemma {:induction false} ListedCount(users: seq<User>)
    ensures |ListedBelow(users, SLOTS)| <= |users|
    ensures |ListedBelow(users, SLOTS)| == |users| <==> OwnSlots(users)
  {
    if users == [] {
      assert ListedBelow(users, SLOTS) == {};
    } else {
      var rest, u := users[..|users| - 1], users[|users| - 1];
      var p := u.controllerPort;
      ListedCount(rest);
      assert users == rest + [u];
      PortsSnoc(rest, u);
      OwnSlotsSnoc(rest, u);
      assert ListedBelow(users, SLOTS) == ListedBelow(rest, SLOTS) + if 0 <= p < SLOTS then {p} else {};
    }
  }

  /** What one node adds to the completed count when its first phase succeeds. */
  function StepsPerNode(users: seq<User>): nat {
    1 + Absent(users, SLOTS) + |users|
  }

  /** The announced total is met exactly when every user has a slot of their own. */
  lemma StepsAreTotal(users: seq<User>)
    ensures StepsPerNode(users) == SLOTS + 1 <==> OwnSlots(users)
    ensures StepsPerNode(users) >= SLOTS + 1
  {
    AbsentCount(users, SLOTS);
    ListedCount(users);
  }

  // ---- the image ----

  /** The last user listed for an address. */
  function LastFor(users: seq<User>, a: int): (k: int)
    ensures -1 <= k < |users|
    ensures k >= 0 ==> users[k].controllerPort == a
    ensures forall i :: k < i < |users| ==> users[i].controllerPort != a
  {
    if users == [] then -1
    else if users[|users| - 1].controllerPort == a then |users| - 1
    else LastFor(users[..|users| - 1], a)
  }

  ghost predicate AllWritable(users: seq<User>) {
    forall u :: u in users ==> Credentials(u).Some?
  }

  /** A listed slot ends up with the card, PIN and mode of the last user listed for it; the time zone
      is one the controller knows, and the one it had if the user is the only one listed there. */
  lemma {:induction false} WrittenIsLast(users: seq<User>, a: int, record: seq<byte>)
    requires AllWritable(users) && LastFor(users, a) >= 0
    ensures var k, w := LastFor(users, a), Written(users, a, record);
            && |w| == H_RECORD
            && w[..H_RECORD - 1] == Credentials(users[k]).value
            && w[H_RECORD - 1] <= LAST_ZONE
            && (LastFor(users[..k], a) < 0 ==> w[H_RECORD - 1] == ZoneFor(record))
  {
    var rest, u, k := users[..|users| - 1], users[|users| - 1], LastFor(users, a);
    if u.controllerPort != a {
      assert k == LastFor(rest, a) && rest[..k] == users[..k] && rest[k] == users[k];
      WrittenIsLast(rest, a, record);
    } else {
      assert u in users && k == |users| - 1;
      RecordShape(u, Written(rest, a, record));
      if LastFor(rest, a) < 0 {
        WrittenElsewhere(rest, a, record);
      }
    }
  }

  lemma RecordShape(u: User, record: seq<byte>)
    requires Credentials(u).Some?
    ensures var r := RecordFor(u, record);
            |r| == H_RECORD && r[..H_RECORD - 1] == Credentials(u).value && r[H_RECORD - 1] == ZoneFor(record) <= LAST_ZONE
  {
  }

  lemma SameRecord(r: seq<byte>, s: seq<byte>)
    requires |r| == |s| == H_RECORD && r[..H_RECORD - 1] == s[..H_RECORD - 1] && r[H_RECORD - 1] == s[H_RECORD - 1]
    ensures r == s
  {
    assert r == r[..H_RECORD - 1] + [r[H_RECORD - 1]];
    assert s == s[..H_RECORD - 1] + [s[H_RECORD - 1]];
  }

  lemma {:induction false} WrittenElsewhere(users: seq<User>, a: int, record: seq<byte>)
    requires LastFor(users, a) < 0
    ensures Written(users, a, record) == record
  {
    if users != [] {
      WrittenElsewhere(users[..|users| - 1], a, record);
    }
  }

  lemma LastForIsPort(users: seq<User>, a: int)
    ensures a in Ports(users) <==> LastFor(users, a) >= 0
  {
    var k := LastFor(users, a);
    if k >= 0 {
      assert users[k] in users;
    } else {
      forall u | u in users
        ensures u.controllerPort != a
      {
        var i :| 0 <= i < |users| && users[i] == u;
      }
    }
  }

  lemma ImageSlot(users: seq<User>, t: Tables, a: int)
    requires t.WellFormed() && 0 <= a < SLOTS
    ensures ImageOf(users, t).slots[a] == if LastFor(users, a) < 0 then ZEROS else Written(users, a, t.slots[a])
  {
    LastForIsPort(users, a);
  }

  lemma OnlyUser(users: seq<User>, a: int)
    requires OwnSlots(users) && LastFor(users, a) >= 0
    ensures LastFor(users[..LastFor(users, a)], a) < 0
  {
    var k := LastFor(users, a);
    assert forall i :: 0 <= i < k ==> users[..k][i].controllerPort != a;
  }

  /** The exact image, address by address. */
  lemma ImageMeaning(users: seq<User>, t: Tables, a: int)
    requires t.WellFormed() && AllWritable(users) && 0 <= a < SLOTS
    ensures var k, r := LastFor(users, a), ImageOf(users, t).slots[a];
            if k < 0 then r == ZEROS
            else
              && |r| == H_RECORD && r[..H_RECORD - 1] == Credentials(users[k]).value && r[H_RECORD - 1] <= LAST_ZONE
              && (OwnSlots(users) ==> r[H_RECORD - 1] == ZoneFor(t.slots[a]))
  {
    ImageSlot(users, t, a);
    if LastFor(users, a) >= 0 {
      WrittenIsLast(users, a, t.slots[a]);
      if OwnSlots(users) {
        OnlyUser(users, a);
      }
    }
  }

  ghost predicate ListedOnce(nodes: seq<byte>, n: byte) {
    multiset(nodes)[n] == 1
  }

  lemma ListedOnceSnoc(nodes: seq<byte>, m: byte, n: byte)
    ensures ListedOnce(nodes + [m], n) <==> (if m == n then n !in nodes else ListedOnce(nodes, n))
  {
    assert n in nodes <==> n in multiset(nodes);
  }

  /** Nodes that are not listed keep what they had; a node listed once gets its image. */
  lemma {:induction false} ImageOfAllMeaning(users: seq<User>, nodes: seq<byte>, tables: map<byte, Tables>, n: byte)
    requires AllWellFormed(tables) && n in tables
    ensures n !in nodes ==> ImageOfAll(users, nodes, tables)[n] == tables[n]
    ensures ListedOnce(nodes, n) ==> ImageOfAll(users, nodes, tables)[n] == ImageOf(users, tables[n])
  {
    if nodes != [] {
      var m := |nodes| - 1;
      ImageOfAllMeaning(users, nodes[..m], tables, n);
      assert nodes == nodes[..m] + [nodes[m]];
      ListedOnceSnoc(nodes[..m], nodes[m], n);
    }
  }

  /** Of enabled users, every record is occupied, and synchronising again changes nothing. */
  lemma SyncIsIdempotent(users: seq<User>, t: Tables)
    requires t.WellFormed() && AllWritable(users)
    requires forall u :: u in users ==> u.enabled
    ensures ImageOf(users, t).WellFormed()
    ensures ImageOf(users, ImageOf(users, t)).slots == ImageOf(users, t).slots
  {
    ImageIsWellFormed(users, t);
    var once := ImageOf(users, t);
    forall a | 0 <= a < SLOTS
      ensures ImageOf(users, once).slots[a] == once.slots[a]
    {
      LastForIsPort(users, a);
      if LastFor(users, a) >= 0 {
        WrittenTwice(users, a, t.slots[a]);
      }
    }
  }

  lemma EnabledRecordKeepsZone(u: User, record: seq<byte>)
    requires u.enabled && Credentials(u).Some?
    ensures RecordFor(u, record)[H_RECORD - 1] == ZoneFor(record) == ZoneFor(RecordFor(u, record))
  {
    assert RecordFor(u, record)[6] == ModeByte(u) != 0;
  }

  lemma {:induction false} ZoneSurvives(users: seq<User>, a: int, record: seq<byte>)
    requires AllWritable(users)
    requires forall u :: u in users ==> u.enabled
    ensures ZoneFor(Written(users, a, record)) == ZoneFor(record)
    ensures LastFor(users, a) >= 0 ==>
      |Written(users, a, record)| == H_RECORD && Written(users, a, record)[H_RECORD - 1] == ZoneFor(record)
  {
    if users != [] {
      var n := |users| - 1;
      ZoneSurvives(users[..n], a, record);
      assert users[n] in users;
      EnabledRecordKeepsZone(users[n], Written(users[..n], a, record));
    }
  }

  lemma WrittenTwice(users: seq<User>, a: int, record: seq<byte>)
    requires AllWritable(users) && LastFor(users, a) >= 0
    requires forall u :: u in users ==> u.enabled
    ensures Written(users, a, Written(users, a, record)) == Written(users, a, record)
  {
    var once := Written(users, a, record);
    var twice := Written(users, a, once);
    ZoneSurvives(users, a, record);
    ZoneSurvives(users, a, once);
    WrittenIsLast(users, a, record);
    WrittenIsLast(users, a, once);
    SameRecord(once, twice);
  }
}
