/** The tasks of a read job: the plain nested loop over nodes and addresses. */
module ReadTasks {
  import opened Sequences
  import opened Bytes
  import opened Counting

  datatype Task = Task(node: byte, address: int)

  function Row(node: byte, addresses: seq<int>): seq<Task> {
    seq(|addresses|, i requires 0 <= i < |addresses| => Task(node, addresses[i]))
  }

  function AllTasks(nodes: seq<byte>, addresses: seq<int>): seq<Task> {
    if nodes == [] then [] else AllTasks(nodes[..|nodes| - 1], addresses) + Row(nodes[|nodes| - 1], addresses)
  }

  /** The tasks before a cursor. */
  function TasksBefore(nodes: seq<byte>, addresses: seq<int>, c: nat, a: nat): seq<Task>
    requires c <= |nodes| && a <= |addresses| && (c == |nodes| ==> a == 0)
  {
    AllTasks(nodes[..c], addresses) + (if c < |nodes| then Row(nodes[c], addresses[..a]) else [])
  }

  lemma {:induction false} TaskCount(nodes: seq<byte>, addresses: seq<int>)
    ensures |AllTasks(nodes, addresses)| == |nodes| * |addresses|
  {
    CountRows(nodes, addresses);
    RepeatedIsProduct(|addresses|, |nodes|);
  }

  lemma {:induction false} CountRows(nodes: seq<byte>, addresses: seq<int>)
    ensures |AllTasks(nodes, addresses)| == Repeated(|addresses|, |nodes|)
  {
    if nodes != [] {
      CountRows(nodes[..|nodes| - 1], addresses);
    }
  }

  /** The cursor after a task. */
  function NextController(addresses: seq<int>, c: nat, a: nat): nat {
    if a + 1 >= |addresses| then c + 1 else c
  }

  function NextAddress(addresses: seq<int>, a: nat): nat {
    if a + 1 >= |addresses| then 0 else a + 1
  }

  /** Moving the cursor adds exactly the task it pointed at. */
  lemma CursorStep(nodes: seq<byte>, addresses: seq<int>, c: nat, a: nat)
    requires c < |nodes| && a < |addresses|
    ensures TasksBefore(nodes, addresses, NextController(addresses, c, a), NextAddress(addresses, a))
         == TasksBefore(nodes, addresses, c, a) + [Task(nodes[c], addresses[a])]
  {
    assert Row(nodes[c], addresses[..a + 1]) == Row(nodes[c], addresses[..a]) + [Task(nodes[c], addresses[a])];
    if a + 1 >= |addresses| {
      assert nodes[..c + 1][..c] == nodes[..c];
      assert addresses[..a + 1] == addresses;
      if c + 1 < |nodes| {
        assert Row(nodes[c + 1], addresses[..0]) == [];
      }
    }
  }

  lemma {:induction false} PrefixOfTasks(nodes: seq<byte>, addresses: seq<int>, c: nat, a: nat)
    requires c <= |nodes| && a <= |addresses| && (c == |nodes| ==> a == 0)
    ensures TasksBefore(nodes, addresses, c, a) <= AllTasks(nodes, addresses)
    ensures c < |nodes| && a < |addresses| ==> |TasksBefore(nodes, addresses, c, a)| < |AllTasks(nodes, addresses)|
    decreases |nodes|
  {
    if c == |nodes| {
      assert nodes[..c] == nodes;
    } else {
      var n := |nodes| - 1;
      if c == n {
        assert Row(nodes[n], addresses[..a]) <= Row(nodes[n], addresses);
      } else {
        PrefixOfTasks(nodes[..n], addresses, c, a);
        assert nodes[..n][..c] == nodes[..c];
        assert TasksBefore(nodes, addresses, c, a) == TasksBefore(nodes[..n], addresses, c, a);
      }
    }
  }

  lemma {:induction false} TaskMembers(nodes: seq<byte>, addresses: seq<int>, t: Task)
    ensures t in AllTasks(nodes, addresses) <==> t.node in nodes && t.address in addresses
  {
    if nodes != [] {
      var n := |nodes| - 1;
      TaskMembers(nodes[..n], addresses, t);
      assert nodes == nodes[..n] + [nodes[n]];
      if t.address in addresses {
        var i :| 0 <= i < |addresses| && addresses[i] == t.address;
        assert t.node == nodes[n] ==> Row(nodes[n], addresses)[i] == t;
      }
    }
  }

  /** Each node and address is visited once. */
  lemma {:induction false} TasksDoNotRepeat(nodes: seq<byte>, addresses: seq<int>)
    requires NoRepeats(nodes) && NoRepeats(addresses)
    ensures NoRepeats(AllTasks(nodes, addresses))
  {
    if nodes != [] {
      var n := |nodes| - 1;
      var before, row := AllTasks(nodes[..n], addresses), Row(nodes[n], addresses);
      TasksDoNotRepeat(nodes[..n], addresses);
      forall i, j | 0 <= i < |before| && 0 <= j < |row|
        ensures before[i] != row[j]
      {
        TaskMembers(nodes[..n], addresses, before[i]);
      }
    }
  }

  // ---- preparing the addresses ----

  /** Inserts an address into an increasing list, once. */
  function Insert(s: seq<int>, a: int): seq<int> {
    if s == [] || a > s[|s| - 1] then s + [a]
    else if a == s[|s| - 1] then s
    else Insert(s[..|s| - 1], a) + [s[|s| - 1]]
  }

  /** Sorted, without repetitions, and only those a read job accepts. */
  function Prepared(addresses: seq<int>): seq<int> {
    if addresses == [] then []
    else
      var rest, a := Prepared(addresses[..|addresses| - 1]), addresses[|addresses| - 1];
      if a <= 0 || a > 16383 then rest else Insert(rest, a)
  }

  predicate Increasing(s: seq<int>) {
    forall i, j :: 0 <= i < j < |s| ==> s[i] < s[j]
  }

  lemma {:induction false} InsertKeeps(s: seq<int>, a: int)
    requires Increasing(s)
    ensures Increasing(Insert(s, a))
    ensures forall x :: x in Insert(s, a) <==> x in s || x == a
  {
    if s != [] && a < s[|s| - 1] {
      InsertKeeps(s[..|s| - 1], a);
      var r := Insert(s[..|s| - 1], a);
      assert s == s[..|s| - 1] + [s[|s| - 1]];
      forall i | 0 <= i < |r|
        ensures r[i] < s[|s| - 1]
      {
        assert r[i] in r;
      }
    }
  }

  lemma {:induction false} PreparedMeaning(addresses: seq<int>)
    ensures Increasing(Prepared(addresses))
    ensures forall a :: a in Prepared(addresses) <==> a in addresses && 1 <= a <= 16383
  {
    if addresses != [] {
      var n := |addresses| - 1;
      PreparedMeaning(addresses[..n]);
      InsertKeeps(Prepared(addresses[..n]), addresses[n]);
      assert addresses == addresses[..n] + [addresses[n]];
    }
  }
}

/** The worker that carries out read jobs a few tasks at a time. */
module UserReadJobs {
  import opened JobStates
  import opened Bytes
  import opened Wrappers
  import opened Types
  import opened Devices
  import opened Records
  import opened Protocol
  import opened Comparison
  import opened ReadTasks
  import opened JobQueue

  const BATCH := 6

  datatype Result = Result(task: Task, localUser: Option<int>, verdict: Verdict)

  datatype Job = Job(
    state: JobState, total: nat, completed: nat,
    matches: nat, differences: nat, missing: nat, unknown: nat, unverified: nat, empty: nat, failed: nat,
    results: seq<Result>)
  {
    function Counter(v: Verdict): nat {
      match v
      case Match => matches
      case Diff => differences
      case Missing => missing
      case Unknown => unknown
      case Unverified => unverified
      case Empty => empty
      case Error => failed
    }

    function Outcomes(): nat {
      matches + differences + missing + unknown + unverified + empty + failed
    }

    /** One more task done, counted under its verdict and kept if asked for. */
    function Add(r: Result, keep: bool, last: bool): Job {
      var j := this.(completed := completed + 1,
                     results := if keep then results + [r] else results,
                     state := if last then Completed else Running);
      match r.verdict
      case Match => j.(matches := matches + 1)
      case Diff => j.(differences := differences + 1)
      case Missing => j.(missing := missing + 1)
      case Unknown => j.(unknown := unknown + 1)
      case Unverified => j.(unverified := unverified + 1)
      case Empty => j.(empty := empty + 1)
      case Error => j.(failed := failed + 1)
    }
  }

  datatype Pending = Pending(
    id: nat, users: seq<User>, nodes: seq<byte>, addresses: seq<int>, includeEmpty: bool,
    controllerIndex: nat, addressIndex: nat)
  {
    predicate WellFormed() {
      && addresses != []
      && controllerIndex <= |nodes|
      && addressIndex < |addresses|
      && (controllerIndex == |nodes| ==> addressIndex == 0)
    }

    function Done(): seq<Task>
      requires WellFormed()
    {
      TasksBefore(nodes, addresses, controllerIndex, addressIndex)
    }

    function Advanced(): Pending {
      this.(controllerIndex := NextController(addresses, controllerIndex, addressIndex),
            addressIndex := NextAddress(addresses, addressIndex))
    }
  }

  function LocalUser(users: seq<User>, address: int): Option<User> {
    if users == [] then None
    else if users[0].controllerPort == address then Some(users[0])
    else LocalUser(users[1..], address)
  }

  /** What was read for a task, and the verdict on it. */
  datatype Visit = Visit(task: Task, got: UserReadOutcome, verdict: Verdict)

  function TasksOf(visits: seq<Visit>): seq<Task> {
    seq(|visits|, i requires 0 <= i < |visits| => visits[i].task)
  }

  function Count(visits: seq<Visit>, v: Verdict): nat {
    if visits == [] then 0
    else Count(visits[..|visits| - 1], v) + (if visits[|visits| - 1].verdict == v then 1 else 0)
  }

  function Kept(users: seq<User>, visits: seq<Visit>, includeEmpty: bool): seq<Result> {
    if visits == [] then []
    else
      var v := visits[|visits| - 1];
      Kept(users, visits[..|visits| - 1], includeEmpty)
      + (if v.verdict == Empty && !includeEmpty then [] else [ResultOf(users, v)])
  }

  function ResultOf(users: seq<User>, v: Visit): Result {
    var u := LocalUser(users, v.task.address);
    Result(v.task, if u.Some? then Some(u.value.id) else None, v.verdict)
  }

  /** A job, what was asked for it, and what was done for it. */
  datatype Ledger = Ledger(job: Job, order: Pending, visits: seq<Visit>)

  /** The job's figures are those of the visits made so far. */
  ghost predicate Accounts(l: Ledger) {
    && l.job.completed == |l.visits| == l.job.Outcomes()
    && (forall v: Verdict :: l.job.Counter(v) == Count(l.visits, v))
    && l.job.results == Kept(l.order.users, l.visits, l.order.includeEmpty)
    && (forall i :: 0 <= i < |l.visits| ==>
        l.visits[i].verdict == Compare(LocalUser(l.order.users, l.visits[i].task.address), l.visits[i].got))
  }

  /** A queued job did exactly the tasks before its cursor. */
  ghost predicate Going(p: Pending, l: Ledger) {
    && p.WellFormed()
    && l.order == p.(controllerIndex := 0, addressIndex := 0)
    && l.job.total == |AllTasks(p.nodes, p.addresses)|
    && TasksOf(l.visits) == p.Done()
    && Accounts(l)
    && (p.controllerIndex < |p.nodes| ==> l.job.state != Completed)
  }

  /** A finished job did every task of the nested loop, once, in its order. */
  ghost predicate Over(l: Ledger) {
    && l.job.state == Completed
    && l.job.completed == l.job.total
    && TasksOf(l.visits) == AllTasks(l.order.nodes, l.order.addresses)
    && Accounts(l)
  }

  function Entered(l: Ledger, v: Visit, keep: bool, last: bool): Ledger {
    Ledger(l.job.Add(ResultOf(l.order.users, v), keep, last), l.order, l.visits + [v])
  }

  lemma EnteredAccounts(l: Ledger, v: Visit, keep: bool, last: bool)
    requires Accounts(l)
    requires v.verdict == Compare(LocalUser(l.order.users, v.task.address), v.got)
    requires keep == !(v.verdict == Empty && !l.order.includeEmpty)
    ensures Accounts(Entered(l, v, keep, last))
  {
    EnteredCounts(l.job, l.visits, v, ResultOf(l.order.users, v), keep, last);
    assert (l.visits + [v])[..|l.visits|] == l.visits;
  }

  lemma EnteredCounts(j: Job, visits: seq<Visit>, v: Visit, r: Result, keep: bool, last: bool)
    requires forall w: Verdict :: j.Counter(w) == Count(visits, w)
    requires r.verdict == v.verdict
    ensures forall w: Verdict :: j.Add(r, keep, last).Counter(w) == Count(visits + [v], w)
    ensures j.Add(r, keep, last).Outcomes() == j.Outcomes() + 1
  {
    forall w: Verdict
      ensures j.Add(r, keep, last).Counter(w) == Count(visits + [v], w)
    {
      CountSnoc(visits, v, w);
    }
  }

  lemma CountSnoc(visits: seq<Visit>, v: Visit, w: Verdict)
    ensures Count(visits + [v], w) == Count(visits, w) + (if v.verdict == w then 1 else 0)
  {
    assert (visits + [v])[..|visits|] == visits;
  }

  lemma NextTasks(p: Pending, visits: seq<Visit>, v: Visit)
    requires p.WellFormed() && p.controllerIndex < |p.nodes| && TasksOf(visits) == p.Done()
    requires v.task == Task(p.nodes[p.controllerIndex], p.addresses[p.addressIndex])
    ensures p.Advanced().WellFormed()
    ensures TasksOf(visits + [v]) == p.Advanced().Done()
    ensures p.Advanced().controllerIndex >= |p.nodes| ==> p.Advanced().Done() == AllTasks(p.nodes, p.addresses)
  {
    CursorStep(p.nodes, p.addresses, p.controllerIndex, p.addressIndex);
    assert TasksOf(visits + [v]) == TasksOf(visits) + [v.task];
    assert p.nodes[..|p.nodes|] == p.nodes;
  }

  /** v is the task at the cursor of p, with its verdict. */
  ghost predicate Due(p: Pending, v: Visit, keep: bool, last: bool) {
    && p.WellFormed() && p.controllerIndex < |p.nodes|
    && v.task == Task(p.nodes[p.controllerIndex], p.addresses[p.addressIndex])
    && v.verdict == Compare(LocalUser(p.users, v.task.address), v.got)
    && keep == !(v.verdict == Empty && !p.includeEmpty)
    && last == (p.Advanced().controllerIndex >= |p.nodes|)
  }

  function NextHead(p: Pending, last: bool): Option<Pending> {
    if last then None else Some(p.Advanced())
  }

  /** A visit moves the job on by one task, or finishes it. */
  lemma VisitStep(p: Pending, l: Ledger, v: Visit, keep: bool, last: bool, m: Ledger)
    requires Going(p, l) && Due(p, v, keep, last) && m == Entered(l, v, keep, last)
    ensures if last then Over(m) else Going(p.Advanced(), m)
  {
    EnteredAccounts(l, v, keep, last);
    NextTasks(p, l.visits, v);
    assert |TasksOf(l.visits + [v])| == |l.visits| + 1;
  }

  lemma NothingYet(p: Pending)
    ensures Accounts(NewLedger(p))
    ensures |p.nodes| * |p.addresses| == |AllTasks(p.nodes, p.addresses)|
    ensures p.nodes == [] || p.addresses == [] ==> AllTasks(p.nodes, p.addresses) == []
  {
    var l := NewLedger(p);
    forall v: Verdict
      ensures l.job.Counter(v) == 0 == Count([], v)
    {
    }
    TaskCount(p.nodes, p.addresses);
  }

  lemma NothingBefore(nodes: seq<byte>, addresses: seq<int>)
    requires nodes != []
    ensures TasksBefore(nodes, addresses, 0, 0) == []
  {
    assert nodes[..0] == [] && Row(nodes[0], addresses[..0]) == [];
  }

  lemma NewJobGoes(p: Pending, l: Ledger)
    requires p.controllerIndex == p.addressIndex == 0 && p.nodes != [] && p.addresses != []
    requires Accounts(l) && l.order == p && l.visits == [] && l.job.state == Queued
    requires l.job.total == |AllTasks(p.nodes, p.addresses)|
    ensures Going(p, l)
  {
    NothingBefore(p.nodes, p.addresses);
    assert TasksOf(l.visits) == [];
  }

  lemma NewJobIsOver(p: Pending, l: Ledger)
    requires Accounts(l) && l.order == p && l.visits == [] && l.job.state == Completed
    requires l.job.total == |AllTasks(p.nodes, p.addresses)| == 0
    ensures Over(l)
  {
    assert TasksOf(l.visits) == [];
  }

  lemma NewJob(p: Pending, l: Ledger)
    requires p.controllerIndex == p.addressIndex == 0 && l == NewLedger(p)
    ensures if p.nodes == [] || p.addresses == [] then Over(l) else Going(p, l)
  {
    NothingYet(p);
    if p.nodes == [] || p.addresses == [] {
      NewJobIsOver(p, l);
    } else {
      NewJobGoes(p, l);
    }
  }

  /** A job whose cursor is past the last node has done everything. */
  lemma NothingLeft(p: Pending, l: Ledger)
    requires Going(p, l) && p.controllerIndex == |p.nodes|
    ensures Over(l.(job := l.job.(state := Completed)))
  {
    var m := l.(job := l.job.(state := Completed));
    forall v: Verdict
      ensures m.job.Counter(v) == l.job.Counter(v)
    {
    }
    assert p.nodes[..p.controllerIndex] == p.nodes;
    assert |TasksOf(l.visits)| == |l.visits|;
  }

  function NewLedger(p: Pending): Ledger {
    var idle := p.nodes == [] || p.addresses == [];
    Ledger(Job(if idle then Completed else Queued, |p.nodes| * |p.addresses|, 0, 0, 0, 0, 0, 0, 0, 0, []), p, [])
  }

  /** The tasks left for a queued job, and one step to take it off the queue. */
  function Work(p: Pending): (w: nat)
    ensures p.WellFormed() ==> w >= 1
  {
    if !p.WellFormed() then 0
    else
      PrefixOfTasks(p.nodes, p.addresses, p.controllerIndex, p.addressIndex);
      1 + |AllTasks(p.nodes, p.addresses)| - |p.Done()|
  }

  lemma WorkShrinks(p: Pending)
    requires p.WellFormed() && p.controllerIndex < |p.nodes|
    ensures p.Advanced().WellFormed() && 1 <= Work(p.Advanced()) == Work(p) - 1
  {
    var q := p.Advanced();
    CursorStep(p.nodes, p.addresses, p.controllerIndex, p.addressIndex);
    PrefixOfTasks(q.nodes, q.addresses, q.controllerIndex, q.addressIndex);
  }

  function IdOf(p: Pending): nat {
    p.id
  }

  /** What was got is what the controller holds, or nothing. */
  ghost predicate Faithful(v: Visit, tables: map<byte, Tables>) {
    || v.got == NO_READ
    || (0 <= v.task.address < SLOTS && v.task.node in tables && v.task.address < |tables[v.task.node].slots|
        && v.got == DecodeRecord(tables[v.task.node].slots[v.task.address]))
  }

  /** A job goes on: its order stays, its visits stay, and the new ones are as the controllers hold them. */
  ghost predicate Continues(l: Ledger, m: Ledger, tables: map<byte, Tables>) {
    && m.order == l.order
    && l.visits <= m.visits
    && forall i :: |l.visits| <= i < |m.visits| ==> Faithful(m.visits[i], tables)
  }

  ghost predicate AllContinue(before: map<nat, Ledger>, after: map<nat, Ledger>, tables: map<byte, Tables>) {
    after.Keys == before.Keys && forall k :: k in before ==> Continues(before[k], after[k], tables)
  }

  lemma EnteredContinues(ledgers: map<nat, Ledger>, id: nat, v: Visit, keep: bool, last: bool,
                         tables: map<byte, Tables>)
    requires id in ledgers && Faithful(v, tables)
    ensures AllContinue(ledgers, ledgers[id := Entered(ledgers[id], v, keep, last)], tables)
  {
  }

  lemma RetiredContinues(ledgers: map<nat, Ledger>, id: nat, tables: map<byte, Tables>)
    requires id in ledgers
    ensures AllContinue(ledgers, ledgers[id := ledgers[id].(job := ledgers[id].job.(state := Completed))], tables)
  {
  }

  lemma ContinueTwice(a: map<nat, Ledger>, b: map<nat, Ledger>, c: map<nat, Ledger>, tables: map<byte, Tables>)
    requires AllContinue(a, b, tables) && AllContinue(b, c, tables)
    ensures AllContinue(a, c, tables)
  {
    forall k | k in a
      ensures Continues(a[k], c[k], tables)
    {
      assert Continues(a[k], b[k], tables) && Continues(b[k], c[k], tables);
    }
  }

  /** Every visit of a finished job, as the controllers held the slots all along. */
  ghost predicate Reports(l: Ledger, tables: map<byte, Tables>) {
    forall i :: 0 <= i < |l.visits| ==> Faithful(l.visits[i], tables)
  }

  /** As long as the tables stay, what a job reports is what they hold, across any number of batches. */
  lemma ReportsOn(l: Ledger, m: Ledger, tables: map<byte, Tables>)
    requires Reports(l, tables) && Continues(l, m, tables)
    ensures Reports(m, tables)
  {
    forall i | 0 <= i < |m.visits|
      ensures Faithful(m.visits[i], tables)
    {
      if i < |l.visits| {
        assert m.visits[i] == l.visits[i];
      }
    }
  }

  class UserReader {
    const bus: Bus
    const proto: Unex721Protocol
    var queue: seq<Pending>
    var ledgers: map<nat, Ledger>
    var nextId: nat

    constructor (bus: Bus)
      requires bus.Valid()
      ensures Valid() && this.bus == bus
      ensures queue == [] && ledgers == map[]
    {
      this.bus := bus;
      proto := new Unex721Protocol(bus);
      queue, ledgers, nextId := [], map[], 1;
    }

    ghost predicate Valid()
      reads this, proto, bus
    {
      proto.bus == bus && bus.Valid() && Consistent(queue, ledgers, nextId, IdOf, Going, Over)
    }

    method QueueUserRead(users: seq<User>, nodes: seq<byte>, addresses: seq<int>, includeEmpty: bool) returns (id: nat)
      requires Valid()
      modifies this
      ensures Valid()
      ensures id == old(nextId) && id in ledgers
      ensures ledgers[id] == NewLedger(Pending(id, users, nodes, Prepared(addresses), includeEmpty, 0, 0))
      ensures nodes == [] || Prepared(addresses) == [] ==> Over(ledgers[id]) && queue == old(queue)
    {
      id := nextId;
      nextId := nextId + 1;
      var p := Pending(id, users, nodes, Prepared(addresses), includeEmpty, 0, 0);
      var l := NewLedger(p);
      NewJob(p, l);
      JobAdded(queue, ledgers, id, IdOf, Going, Over, p, l, l.job.state == Completed);
      ledgers := ledgers[id := l];
      if l.job.state == Queued {
        queue := queue + [p];
      }
    }

    /** The head moves on, or leaves finished. */
    method Replace(head: Option<Pending>, l: Ledger)
      requires Valid() && queue != []
      requires head.Some? ==> head.value.id == queue[0].id && Going(head.value, l)
      requires head.None? ==> Over(l)
      requires queue[0].id in ledgers
      modifies this`ledgers, this`queue
      ensures Valid()
      ensures queue == WithHead(old(queue), head)
      ensures ledgers == old(ledgers)[old(queue)[0].id := l]
    {
      assert IdOf(queue[0]) == queue[0].id && (head.Some? ==> IdOf(head.value) == head.value.id);
      HeadChanged(queue, ledgers, nextId, IdOf, Going, Over, head, l);
      queue, ledgers := WithHead(queue, head), ledgers[queue[0].id := l];
    }

    /** The job at the head has no task left: it is completed and taken off. */
    method Retire()
      requires Valid() && queue != [] && queue[0].controllerIndex >= |queue[0].nodes|
      modifies this`ledgers, this`queue
      ensures Valid()
      ensures queue == WithHead(old(queue), None) && Remaining(queue, Work) < Remaining(old(queue), Work)
      ensures AllContinue(old(ledgers), ledgers, bus.tables)
    {
      var p := queue[0];
      HeadIsGoing(queue, ledgers, nextId, IdOf, Going, Over);
      NothingLeft(p, ledgers[p.id]);
      HeadShrinks(queue, Work, None);
      RetiredContinues(ledgers, p.id, bus.tables);
      Replace(None, ledgers[p.id].(job := ledgers[p.id].job.(state := Completed)));
    }

    /** A visit is entered into the job at the head, and the cursor moves. */
    method Note(v: Visit, keep: bool, last: bool)
      requires Valid() && queue != [] && Due(queue[0], v, keep, last)
      modifies this`ledgers, this`queue
      ensures Valid()
      ensures queue == WithHead(old(queue), NextHead(old(queue)[0], last))
      ensures var id := old(queue)[0].id;
              id in old(ledgers) && ledgers == old(ledgers)[id := Entered(old(ledgers)[id], v, keep, last)]
    {
      var p := queue[0];
      HeadIsGoing(queue, ledgers, nextId, IdOf, Going, Over);
      var l := ledgers[p.id];
      var m := Entered(l, v, keep, last);
      VisitStep(p, l, v, keep, last, m);
      Replace(NextHead(p, last), m);
    }

    /** Reads a slot and compares it. */
    method ReadTask(users: seq<User>, task: Task) returns (v: Visit)
      requires Valid()
      modifies bus
      ensures Valid() && Grown(old(bus.fifos), bus.fifos)
      ensures bus.tables == old(bus.tables) && bus.writes == old(bus.writes)
      ensures v.task == task && Faithful(v, bus.tables)
      ensures v.verdict == Compare(LocalUser(users, task.address), v.got)
    {
      var got := proto.ReadUser(task.node, task.address);
      v := Visit(task, got, Compare(LocalUser(users, task.address), got));
    }

    /** The task at the cursor of the head is read, compared and entered. */
    method NextTask() returns (last: bool)
      requires Valid() && queue != [] && queue[0].WellFormed() && queue[0].controllerIndex < |queue[0].nodes|
      modifies this`ledgers, this`queue, bus
      ensures Valid() && Grown(old(bus.fifos), bus.fifos)
      ensures bus.tables == old(bus.tables) && bus.writes == old(bus.writes)
      ensures Remaining(queue, Work) < Remaining(old(queue), Work)
      ensures AllContinue(old(ledgers), ledgers, bus.tables)
    {
      var p := queue[0];
      HeadIsGoing(queue, ledgers, nextId, IdOf, Going, Over);
      WorkShrinks(p);
      last := p.Advanced().controllerIndex >= |p.nodes|;
      HeadShrinks(queue, Work, NextHead(p, last));
      var v := ReadTask(p.users, Task(p.nodes[p.controllerIndex], p.addresses[p.addressIndex]));
      var keep := !(v.verdict == Empty && !p.includeEmpty);
      EnteredContinues(ledgers, p.id, v, keep, last, bus.tables);
      Note(v, keep, last);
    }

    /** One step of the job at the head of the queue. */
    method ReadStep() returns (last: bool)
      requires Valid() && queue != []
      modifies this`ledgers, this`queue, bus
      ensures Valid() && Grown(old(bus.fifos), bus.fifos)
      ensures bus.tables == old(bus.tables) && bus.writes == old(bus.writes)
      ensures Remaining(queue, Work) < Remaining(old(queue), Work)
      ensures AllContinue(old(ledgers), ledgers, bus.tables)
    {
      HeadIsGoing(queue, ledgers, nextId, IdOf, Going, Over);
      if queue[0].controllerIndex < |queue[0].nodes| {
        last := NextTask();
      } else {
        Retire();
        last := false;
      }
    }

    /** At most six tasks, and none after the last one of a job: another job waits for the next call.
        Every task that is entered is as the controllers hold it. */
    method ProcessUserReadBatch()
      requires Valid()
      modifies this`ledgers, this`queue, bus
      ensures Valid() && Grown(old(bus.fifos), bus.fifos)
      ensures bus.tables == old(bus.tables) && bus.writes == old(bus.writes)
      ensures old(queue) != [] ==> Remaining(queue, Work) < Remaining(old(queue), Work)
      ensures AllContinue(old(ledgers), ledgers, bus.tables)
    {
      var batch := 0;
      while batch < BATCH
        invariant Valid() && Grown(old(bus.fifos), bus.fifos)
        invariant bus.tables == old(bus.tables) && bus.writes == old(bus.writes)
        invariant if batch == 0 then queue == old(queue) else Remaining(queue, Work) < Remaining(old(queue), Work)
        invariant AllContinue(old(ledgers), ledgers, bus.tables)
      {
        if queue == [] {
          return;
        }
        ghost var f, l := bus.fifos, ledgers;
        var last := ReadStep();
        GrownTwice(old(bus.fifos), f, bus.fifos);
        ContinueTwice(old(ledgers), l, ledgers, bus.tables);
        batch := batch + 1;
        if last {
          return;
        }
      }
    }
  }
}
