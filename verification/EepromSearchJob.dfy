/** The worker that searches EEPROM images for a card a few blocks at a time. */
module EepromSearchJobs {
  import opened Sequences
  import opened JobStates
  import opened Bytes
  import opened Wrappers
  import opened CardText
  import opened Devices
  import opened Records
  import opened Protocol
  import opened ReadTasks
  import opened JobQueue
  import opened EepromPatterns

  const BATCH := 4
  const MAX_RESULTS := 500
  const MAX_ERRORS := 50

  datatype Job = Job(state: JobState, total: int, completed: nat, failed: nat, truncated: bool,
                     matches: seq<Hit>, errors: seq<Task>)

  type Compact = map<byte, seq<(int, seq<byte>)>>

  /** What is searched for, and where; a range may be upside down, and is empty then. */
  datatype Order = Order(series: word, number: word, nodes: seq<byte>, start: int, end: int, block: nat, probes: seq<int>)
  {
    predicate WellFormed() {
      (start <= end ==> 0 <= start && end < IMAGE) && block >= 1 && Increasing(probes)
    }

    predicate Idle() {
      nodes == [] || start > end
    }

    function Blocks(): seq<int>
      requires block >= 1
    {
      Starts(start, end, block)
    }
  }

  datatype Pending = Pending(id: nat, order: Order, controllerIndex: nat, nextAddress: int, compact: Compact)
  {
    /** How many blocks of the current node lie before the cursor. */
    function BlockIndex(): int
      requires order.block >= 1
    {
      |order.Blocks()| - |Starts(nextAddress, order.end, order.block)|
    }

    predicate WellFormed() {
      && order.WellFormed()
      && controllerIndex <= |order.nodes|
      && order.start <= nextAddress <= order.end
      && (controllerIndex == |order.nodes| ==> nextAddress == order.start)
      && 0 <= BlockIndex()
      && order.Blocks()[BlockIndex()..] == Starts(nextAddress, order.end, order.block)
    }

    function Done(): seq<Task>
      requires WellFormed()
    {
      TasksBefore(order.nodes, order.Blocks(), controllerIndex, BlockIndex())
    }

    function Advanced(): Pending {
      if nextAddress + order.block > order.end then this.(controllerIndex := controllerIndex + 1, nextAddress := order.start)
      else this.(nextAddress := nextAddress + order.block)
    }
  }

  function RecordsOf(compact: Compact, node: byte): seq<(int, seq<byte>)> {
    if node in compact then compact[node] else []
  }

  function PatternsFor(o: Order, compact: Compact, node: byte): seq<Pattern> {
    PatternsWith(o.series, o.number, RecordsOf(compact, node))
  }

  /** A block that was read, or not, and the patterns it was searched for. */
  datatype Visit = Visit(task: Task, patterns: seq<Pattern>, data: Option<seq<byte>>)

  function TasksOf(visits: seq<Visit>): seq<Task> {
    seq(|visits|, i requires 0 <= i < |visits| => visits[i].task)
  }

  function VisitHits(o: Order, v: Visit): seq<Hit> {
    var core := Core(v.task.address, o.end, o.block);
    if v.data.None? || core < 0 then []
    else BlockHits(v.task.node, v.task.address, core, v.patterns, v.data.value)
  }

  function HitLists(o: Order, visits: seq<Visit>): seq<seq<Hit>> {
    seq(|visits|, i requires 0 <= i < |visits| => VisitHits(o, visits[i]))
  }

  function AllHits(o: Order, visits: seq<Visit>): seq<Hit> {
    Flatten(HitLists(o, visits))
  }

  lemma AllHitsSnoc(o: Order, visits: seq<Visit>, v: Visit)
    ensures AllHits(o, visits + [v]) == AllHits(o, visits) + VisitHits(o, v)
  {
    var lists := HitLists(o, visits + [v]);
    assert lists[..|visits|] == HitLists(o, visits);
  }

  function FailedTasks(visits: seq<Visit>): seq<Task> {
    if visits == [] then []
    else
      var v := visits[|visits| - 1];
      FailedTasks(visits[..|visits| - 1]) + (if v.data.None? then [v.task] else [])
  }

  function First<T>(n: nat, s: seq<T>): seq<T> {
    if |s| <= n then s else s[..n]
  }

  datatype Ledger = Ledger(job: Job, order: Order, compact: Compact, visits: seq<Visit>)

  /** The job's figures are those of the blocks visited: results beyond 500 are dropped and said so. */
  ghost predicate Accounts(l: Ledger) {
    && l.job.completed == |l.visits|
    && l.job.failed == |FailedTasks(l.visits)|
    && l.job.errors == First(MAX_ERRORS, FailedTasks(l.visits))
    && l.job.matches == First(MAX_RESULTS, AllHits(l.order, l.visits))
    && (l.job.truncated <==> |AllHits(l.order, l.visits)| > MAX_RESULTS)
  }

  /** The records of a node are those read before its first block, for every block of it. */
  ghost predicate Searched(o: Order, compact: Compact, visits: seq<Visit>) {
    && (o.probes == [] ==> compact == map[])
    && (forall n :: n in compact ==> GoodRecords(compact[n]))
    && forall i :: 0 <= i < |visits| ==>
      && visits[i].patterns == PatternsFor(o, compact, visits[i].task.node)
      && (o.probes != [] ==> visits[i].task.node in compact)
  }

  ghost predicate Going(p: Pending, l: Ledger) {
    && p.WellFormed()
    && l.order == p.order && l.compact == p.compact
    && l.job.total == |AllTasks(p.order.nodes, p.order.Blocks())|
    && TasksOf(l.visits) == p.Done()
    && Accounts(l) && Searched(p.order, p.compact, l.visits)
    && (p.controllerIndex < |p.order.nodes| ==> l.job.state != Completed)
  }

  ghost predicate Over(l: Ledger) {
    && l.order.WellFormed()
    && l.job.state == Completed && (l.order.start <= l.order.end ==> l.job.completed == l.job.total)
    && TasksOf(l.visits) == AllTasks(l.order.nodes, l.order.Blocks())
    && Accounts(l) && Searched(l.order, l.compact, l.visits)
  }

  function Entered(l: Ledger, compact: Compact, v: Visit, last: bool): Ledger {
    var found := VisitHits(l.order, v);
    var j := l.job;
    Ledger(
      Job(if last then Completed else Running, j.total, j.completed + 1,
          j.failed + (if v.data.None? then 1 else 0),
          j.truncated || |j.matches| + |found| > MAX_RESULTS,
          First(MAX_RESULTS, j.matches + found),
          if v.data.None? then First(MAX_ERRORS, j.errors + [v.task]) else j.errors),
      l.order, compact, l.visits + [v])
  }

  lemma FirstTwice<T>(n: nat, a: seq<T>, b: seq<T>)
    ensures First(n, First(n, a) + b) == First(n, a + b)
    ensures |a + b| > n <==> |a| > n || |First(n, a)| + |b| > n
  {
  }

  lemma EnteredAccounts(l: Ledger, compact: Compact, v: Visit, last: bool)
    requires Accounts(l)
    ensures Accounts(Entered(l, compact, v, last))
  {
    assert (l.visits + [v])[..|l.visits|] == l.visits;
    AllHitsSnoc(l.order, l.visits, v);
    FirstTwice(MAX_RESULTS, AllHits(l.order, l.visits), VisitHits(l.order, v));
    FirstTwice(MAX_ERRORS, FailedTasks(l.visits), [v.task]);
  }

  lemma BlockStep(p: Pending)
    requires p.WellFormed() && p.controllerIndex < |p.order.nodes|
    ensures p.BlockIndex() < |p.order.Blocks()| && p.order.Blocks()[p.BlockIndex()] == p.nextAddress
    ensures var q := p.Advanced();
            && q.WellFormed()
            && q.controllerIndex == NextController(p.order.Blocks(), p.controllerIndex, p.BlockIndex())
            && q.BlockIndex() == NextAddress(p.order.Blocks(), p.BlockIndex())
  {
    var blocks, k := p.order.Blocks(), p.BlockIndex();
    var left := Starts(p.nextAddress, p.order.end, p.order.block);
    assert blocks[k] == blocks[k..][0] == left[0];
    var next := Starts(p.nextAddress + p.order.block, p.order.end, p.order.block);
    assert left == [p.nextAddress] + next;
    assert blocks[k + 1..] == left[1..] == next;
    assert blocks[0..] == blocks;
  }

  lemma NextTasks(p: Pending, visits: seq<Visit>, v: Visit)
    requires p.WellFormed() && p.controllerIndex < |p.order.nodes| && TasksOf(visits) == p.Done()
    requires v.task == Task(p.order.nodes[p.controllerIndex], p.nextAddress)
    ensures p.Advanced().WellFormed()
    ensures TasksOf(visits + [v]) == p.Advanced().Done()
    ensures p.Advanced().controllerIndex >= |p.order.nodes| ==> p.Advanced().Done() == AllTasks(p.order.nodes, p.order.Blocks())
  {
    BlockStep(p);
    CursorStep(p.order.nodes, p.order.Blocks(), p.controllerIndex, p.BlockIndex());
    assert TasksOf(visits + [v]) == TasksOf(visits) + [v.task];
    assert p.order.nodes[..|p.order.nodes|] == p.order.nodes;
  }

  /** The records are present ones of eight bytes that the controller holds at listed addresses. */
  ghost predicate RecordsHeld(o: Order, records: seq<(int, seq<byte>)>, node: byte, tables: map<byte, Tables>) {
    && GoodRecords(records)
    && forall k :: 0 <= k < |records| ==> RecordHeld(o, records[k].0, records[k].1, node, tables)
  }

  ghost predicate RecordHeld(o: Order, address: int, record: seq<byte>, node: byte, tables: map<byte, Tables>) {
    && address in o.probes && 0 <= address < SLOTS
    && node in tables && address < |tables[node].slots| && record == tables[node].slots[address]
    && |record| == H_RECORD && !AllZero(record)
  }

  lemma RecordAdded(o: Order, records: seq<(int, seq<byte>)>, i: nat, record: seq<byte>, node: byte,
                    tables: map<byte, Tables>)
    requires o.WellFormed() && i < |o.probes| && RecordsHeld(o, records, node, tables)
    requires records != [] ==> i > 0 && records[|records| - 1].0 <= o.probes[i - 1]
    requires RecordHeld(o, o.probes[i], record, node, tables)
    ensures RecordsHeld(o, records + [(o.probes[i], record)], node, tables)
  {
  }

  /** The records of a node are set before its first block and never again. */
  ghost predicate Probed(o: Order, before: Compact, after: Compact, node: byte, tables: map<byte, Tables>) {
    if o.probes == [] || node in before then after == before
    else exists records :: RecordsHeld(o, records, node, tables) && after == before[node := records]
  }

  lemma SearchedStep(o: Order, before: Compact, after: Compact, visits: seq<Visit>, v: Visit, tables: map<byte, Tables>)
    requires Searched(o, before, visits) && Probed(o, before, after, v.task.node, tables)
    requires v.patterns == PatternsFor(o, after, v.task.node)
    ensures Searched(o, after, visits + [v])
  {
    forall i | 0 <= i < |visits + [v]|
      ensures (visits + [v])[i].patterns == PatternsFor(o, after, (visits + [v])[i].task.node)
      ensures o.probes != [] ==> (visits + [v])[i].task.node in after
    {
      if i < |visits| {
        assert visits[i].patterns == PatternsFor(o, before, visits[i].task.node);
      }
    }
  }

  /** v is the block at the cursor of p, searched for the patterns of its node. */
  ghost predicate Due(p: Pending, compact: Compact, v: Visit, last: bool, tables: map<byte, Tables>) {
    && p.WellFormed() && p.controllerIndex < |p.order.nodes|
    && v.task == Task(p.order.nodes[p.controllerIndex], p.nextAddress)
    && Probed(p.order, p.compact, compact, v.task.node, tables)
    && v.patterns == PatternsFor(p.order, compact, v.task.node)
    && last == (p.Advanced().controllerIndex >= |p.order.nodes|)
  }

  function NextHead(p: Pending, compact: Compact, last: bool): Option<Pending> {
    if last then None else Some(p.Advanced().(compact := compact))
  }

  /** A block moves the job on by one task, or finishes it. */
  lemma VisitStep(p: Pending, l: Ledger, compact: Compact, v: Visit, last: bool, m: Ledger, tables: map<byte, Tables>)
    requires Going(p, l) && Due(p, compact, v, last, tables) && m == Entered(l, compact, v, last)
    ensures if last then Over(m) else Going(p.Advanced().(compact := compact), m)
  {
    EnteredAccounts(l, compact, v, last);
    NextTasks(p, l.visits, v);
    SearchedStep(p.order, p.compact, compact, l.visits, v, tables);
    assert |TasksOf(l.visits + [v])| == |l.visits| + 1;
    var q := p.Advanced().(compact := compact);
    assert q.Done() == p.Advanced().Done();
  }

  /** Division as the program does it, towards zero. */
  function Quotient(a: int, b: nat): int
    requires b >= 1
  {
    if a >= 0 then a / b else -(-a / b)
  }

  function NewLedger(o: Order): Ledger
    requires o.WellFormed()
  {
    var blocks := Quotient(o.end - o.start + o.block, o.block);
    Ledger(Job(if o.Idle() then Completed else Queued, |o.nodes| * blocks, 0, 0, false, [], []), o, map[], [])
  }

  lemma NothingBefore(p: Pending)
    requires p.order.WellFormed() && p.order.start <= p.order.end && p.controllerIndex == 0 && p.nextAddress == p.order.start
    ensures p.WellFormed() && p.Done() == []
  {
    var blocks := p.order.Blocks();
    assert blocks[0..] == blocks;
    if p.order.nodes != [] {
      assert p.order.nodes[..0] == [] && Row(p.order.nodes[0], blocks[..0]) == [];
    }
  }

  lemma NoBlocks(o: Order)
    requires o.block >= 1 && o.Idle()
    ensures AllTasks(o.nodes, o.Blocks()) == []
  {
    TaskCount(o.nodes, o.Blocks());
  }

  /** The announced total is the number of tasks exactly if the start is less than two blocks above the
      end, or there is no node; otherwise it is less. */
  lemma TotalIsTasks(o: Order)
    requires o.WellFormed()
    ensures NewLedger(o).job.total == |AllTasks(o.nodes, o.Blocks())| <==> o.nodes == [] || o.start < o.end + 2 * o.block
    ensures NewLedger(o).job.total <= |AllTasks(o.nodes, o.Blocks())|
  {
    TaskCount(o.nodes, o.Blocks());
    if o.start <= o.end {
      StartsCount(o.start, o.end, o.block);
    } else {
      NoBlocks(o);
      UpsideDown(o.start - o.end, o.block);
      Product(|o.nodes|, Quotient(o.end - o.start + o.block, o.block));
    }
  }

  lemma UpsideDown(x: nat, b: nat)
    requires x >= 1 && b >= 1
    ensures if x < 2 * b then Quotient(b - x, b) == 0 else Quotient(b - x, b) < 0
  {
    if x <= b {
      DivSmall(b - x, b);
    } else if x < 2 * b {
      DivSmall(x - b, b);
    } else {
      DivStep(x - 2 * b, b);
      assert (x - 2 * b) / b >= 0;
    }
  }

  lemma Product(n: nat, q: int)
    requires q <= 0
    ensures n * q <= 0 && (n * q == 0 <==> n == 0 || q == 0)
  {
    if n > 0 && q < 0 {
      assert n * q <= q;
    }
  }

  lemma NewJob(id: nat, o: Order, l: Ledger)
    requires o.WellFormed() && l == NewLedger(o)
    ensures if o.Idle() then Over(l) else Going(Pending(id, o, 0, o.start, map[]), l)
  {
    assert TasksOf([]) == [];
    TotalIsTasks(o);
    if o.Idle() {
      NoBlocks(o);
    } else {
      NothingBefore(Pending(id, o, 0, o.start, map[]));
    }
  }

  lemma NothingLeft(p: Pending, l: Ledger)
    requires Going(p, l) && p.controllerIndex == |p.order.nodes|
    ensures Over(l.(job := l.job.(state := Completed)))
  {
    assert p.order.nodes[..p.controllerIndex] == p.order.nodes;
    assert |TasksOf(l.visits)| == |l.visits|;
  }

  function Work(p: Pending): (w: nat)
    ensures p.WellFormed() ==> w >= 1
  {
    if !p.WellFormed() then 0
    else
      PrefixOfTasks(p.order.nodes, p.order.Blocks(), p.controllerIndex, p.BlockIndex());
      1 + |AllTasks(p.order.nodes, p.order.Blocks())| - |p.Done()|
  }

  lemma WorkShrinks(p: Pending, compact: Compact)
    requires p.WellFormed() && p.controllerIndex < |p.order.nodes|
    ensures var q := p.Advanced().(compact := compact); q.WellFormed() && 1 <= Work(q) == Work(p) - 1
  {
    var q := p.Advanced().(compact := compact);
    BlockStep(p);
    assert q.BlockIndex() == p.Advanced().BlockIndex();
    CursorStep(p.order.nodes, p.order.Blocks(), p.controllerIndex, p.BlockIndex());
    PrefixOfTasks(q.order.nodes, q.order.Blocks(), q.controllerIndex, q.BlockIndex());
  }

  function IdOf(p: Pending): nat {
    p.id
  }

  // ---- the result ----

  /** Every block that was read is the controller's EEPROM, and every record searched for one of its
      user records. */
  ghost predicate Shows(l: Ledger, tables: map<byte, Tables>) {
    && (forall i :: 0 <= i < |l.visits| ==> Faithful(l.order, l.visits[i], tables))
    && forall n :: n in l.compact ==> RecordsHeld(l.order, l.compact[n], n, tables)
  }

  /** Whatever the link does, a block that is read shows the controller's EEPROM. */
  ghost predicate Faithful(o: Order, v: Visit, tables: map<byte, Tables>) {
    v.data.Some? ==>
      && v.task.node in tables && |tables[v.task.node].eeprom| == IMAGE
      && var s, core := v.task.address, Core(v.task.address, o.end, o.block);
      && 0 <= s && 0 <= core && s + core <= IMAGE
      && v.data.value == tables[v.task.node].eeprom[s..s + ReadLength(s, core)]
  }

  lemma ReadIsFaithful(o: Order, v: Visit, tables: map<byte, Tables>)
    requires o.WellFormed() && o.start <= v.task.address <= o.end && AllWellFormed(tables)
    requires var length := ReadLength(v.task.address, Core(v.task.address, o.end, o.block));
             v.data.Some? ==>
               && 0 <= v.task.address && 1 <= length && v.task.address + length <= EEPROM_SIZE && v.task.node in tables
               && v.data.value == tables[v.task.node].eeprom[v.task.address..v.task.address + length]
    ensures Faithful(o, v, tables)
  {
  }

  /** The plain search of the whole range of every listed image. */
  ghost predicate FoundPlainly(l: Ledger, tables: map<byte, Tables>, h: Hit) {
    && h.node in l.order.nodes && h.node in tables
    && l.order.start <= h.address <= l.order.end
    && h.pattern in PatternsFor(l.order, l.compact, h.node)
    && Occurs(tables[h.node].eeprom, h.pattern.bytes, h.address)
  }

  /** An encoding of the card, or the present record of a listed user address on this node. */
  ghost predicate Wanted(o: Order, p: Pattern, node: byte, tables: map<byte, Tables>) {
    || p in CardPatterns(o.series, o.number)
    || exists a :: RecordHeld(o, a, p.bytes, node, tables) && p == Pattern(CompactUser(a), p.bytes, true)
  }

  lemma PatternsAreWanted(l: Ledger, tables: map<byte, Tables>, node: byte, p: Pattern)
    requires Shows(l, tables) && p in PatternsFor(l.order, l.compact, node)
    ensures Wanted(l.order, p, node, tables)
  {
    var records := RecordsOf(l.compact, node);
    if p !in CardPatterns(l.order.series, l.order.number) {
      assert p in CompactPatterns(records);
      var k :| 0 <= k < |records| && p == CompactPatterns(records)[k];
      assert RecordsHeld(l.order, records, node, tables);
      assert RecordHeld(l.order, records[k].0, p.bytes, node, tables);
    }
  }

  lemma AllHitsMembers(o: Order, visits: seq<Visit>, h: Hit)
    ensures h in AllHits(o, visits) <==> exists i :: 0 <= i < |visits| && h in VisitHits(o, visits[i])
  {
    FlattenMembers(HitLists(o, visits), h);
    assert forall i :: 0 <= i < |visits| ==> HitLists(o, visits)[i] == VisitHits(o, visits[i]);
  }

  lemma {:induction false} NoFailures(visits: seq<Visit>)
    requires FailedTasks(visits) == []
    ensures forall i :: 0 <= i < |visits| ==> visits[i].data.Some?
  {
    if visits != [] {
      NoFailures(visits[..|visits| - 1]);
    }
  }

  lemma PatternsAreGood(o: Order, compact: Compact, visits: seq<Visit>, i: nat)
    requires Searched(o, compact, visits) && i < |visits|
    ensures AllFit(visits[i].patterns) && NoRepeats(visits[i].patterns)
  {
    PatternsWithFit(o.series, o.number, RecordsOf(compact, visits[i].task.node));
  }

  lemma VisitIsPlain(o: Order, v: Visit, tables: map<byte, Tables>, h: Hit)
    requires AllFit(v.patterns) && v.data.Some? && Faithful(o, v, tables)
    ensures h in VisitHits(o, v) <==>
              && h.node == v.task.node
              && v.task.address <= h.address < v.task.address + Core(v.task.address, o.end, o.block)
              && h.pattern in v.patterns
              && Occurs(tables[v.task.node].eeprom, h.pattern.bytes, h.address)
  {
    var s, core, image := v.task.address, Core(v.task.address, o.end, o.block), tables[v.task.node].eeprom;
    BlockHitsMeaning(v.task.node, s, core, v.patterns, v.data.value, h);
    if h.pattern in v.patterns && s <= h.address < s + core {
      assert v.data.value == image[s..s + ReadLength(s, core)];
      BlockSeesImage(image, s, core, h.pattern, h.address);
    }
  }

  /** One block reports just what the plain search finds in its core. */
  lemma BlockIsPlain(l: Ledger, tables: map<byte, Tables>, i: nat, h: Hit)
    requires Searched(l.order, l.compact, l.visits) && i < |l.visits|
    requires l.visits[i].data.Some? && Faithful(l.order, l.visits[i], tables)
    ensures var v := l.visits[i];
            h in VisitHits(l.order, v) <==>
              && h.node == v.task.node
              && v.task.address <= h.address < v.task.address + Core(v.task.address, l.order.end, l.order.block)
              && h.pattern in PatternsFor(l.order, l.compact, h.node)
              && Occurs(tables[v.task.node].eeprom, h.pattern.bytes, h.address)
  {
    PatternsAreGood(l.order, l.compact, l.visits, i);
    VisitIsPlain(l.order, l.visits[i], tables, h);
  }

  lemma SearchIsSound(l: Ledger, tables: map<byte, Tables>, h: Hit)
    requires Over(l) && Shows(l, tables) && l.job.failed == 0
    requires h in AllHits(l.order, l.visits)
    ensures FoundPlainly(l, tables, h)
  {
    var o, visits := l.order, l.visits;
    AllHitsMembers(o, visits, h);
    NoFailures(visits);
    var i :| 0 <= i < |visits| && h in VisitHits(o, visits[i]);
    BlockIsPlain(l, tables, i, h);
    VisitIsListed(l, i);
    BlocksCover(o.start, o.end, o.block, h.address);
  }

  lemma VisitIsListed(l: Ledger, i: nat)
    requires Over(l) && i < |l.visits|
    ensures l.visits[i].task.node in l.order.nodes && l.visits[i].task.address in l.order.Blocks()
  {
    assert TasksOf(l.visits)[i] == l.visits[i].task;
    TaskMembers(l.order.nodes, l.order.Blocks(), l.visits[i].task);
  }

  /** Every block of every listed node was visited. */
  lemma VisitOf(l: Ledger, node: byte, s: int) returns (i: nat)
    requires Over(l) && node in l.order.nodes && s in l.order.Blocks()
    ensures i < |l.visits| && l.visits[i].task == Task(node, s)
  {
    TaskMembers(l.order.nodes, l.order.Blocks(), Task(node, s));
    i :| 0 <= i < |TasksOf(l.visits)| && TasksOf(l.visits)[i] == Task(node, s);
  }

  lemma SearchIsComplete(l: Ledger, tables: map<byte, Tables>, h: Hit)
    requires Over(l) && Shows(l, tables) && l.job.failed == 0
    requires FoundPlainly(l, tables, h)
    ensures h in AllHits(l.order, l.visits)
  {
    var o, visits := l.order, l.visits;
    NoFailures(visits);
    BlocksCover(o.start, o.end, o.block, h.address);
    var s :| s in o.Blocks() && s <= h.address < s + Core(s, o.end, o.block);
    var i := VisitOf(l, h.node, s);
    BlockIsPlain(l, tables, i, h);
    AllHitsMembers(o, visits, h);
  }

  /** A finished search without a failed block and with nothing dropped has reported exactly what the
      plain search of the images finds. */
  lemma SearchIsPlain(l: Ledger, tables: map<byte, Tables>, h: Hit)
    requires Over(l) && Shows(l, tables)
    requires l.job.failed == 0 && !l.job.truncated
    ensures h in l.job.matches <==> FoundPlainly(l, tables, h)
    ensures h in l.job.matches ==> Wanted(l.order, h.pattern, h.node, tables)
  {
    assert l.job.matches == AllHits(l.order, l.visits);
    if h in l.job.matches {
      SearchIsSound(l, tables, h);
      PatternsAreWanted(l, tables, h.node, h.pattern);
    }
    if FoundPlainly(l, tables, h) {
      SearchIsComplete(l, tables, h);
    }
  }

  lemma VisitHitsPlace(l: Ledger, i: nat, h: Hit)
    requires Searched(l.order, l.compact, l.visits) && i < |l.visits| && h in VisitHits(l.order, l.visits[i])
    ensures var t := l.visits[i].task;
            h.node == t.node && t.address <= h.address < t.address + l.order.block
  {
    var v := l.visits[i];
    PatternsAreGood(l.order, l.compact, l.visits, i);
    BlockHitsMeaning(v.task.node, v.task.address, Core(v.task.address, l.order.end, l.order.block), v.patterns, v.data.value, h);
  }

  lemma VisitHitsDoNotRepeat(l: Ledger, i: nat)
    requires Searched(l.order, l.compact, l.visits) && i < |l.visits|
    ensures NoRepeats(VisitHits(l.order, l.visits[i]))
  {
    var v := l.visits[i];
    var core := Core(v.task.address, l.order.end, l.order.block);
    if v.data.Some? && core >= 0 {
      PatternsAreGood(l.order, l.compact, l.visits, i);
      BlockHitsDoNotRepeat(v.task.node, v.task.address, core, v.patterns, v.data.value);
    }
  }

  lemma HitsDoNotRepeat(l: Ledger)
    requires Searched(l.order, l.compact, l.visits) && l.order.block >= 1
    requires NoRepeats(TasksOf(l.visits))
    requires forall i :: 0 <= i < |l.visits| ==> l.visits[i].task.address in l.order.Blocks()
    ensures NoRepeats(AllHits(l.order, l.visits))
  {
    var lists := HitLists(l.order, l.visits);
    forall i | 0 <= i < |lists|
      ensures NoRepeats(lists[i])
    {
      VisitHitsDoNotRepeat(l, i);
    }
    forall i, j | 0 <= i < j < |lists|
      ensures Apart(lists[i], lists[j])
    {
      forall x, y | 0 <= x < |lists[i]| && 0 <= y < |lists[j]|
        ensures lists[i][x] != lists[j][y]
      {
        VisitHitsPlace(l, i, lists[i][x]);
        VisitHitsPlace(l, j, lists[j][y]);
        DifferentBlocks(l, i, j);
      }
    }
    FlattenDoesNotRepeat(lists);
  }

  lemma DifferentBlocks(l: Ledger, i: nat, j: nat)
    requires i < j < |l.visits| && l.order.block >= 1 && NoRepeats(TasksOf(l.visits))
    requires l.visits[i].task.address in l.order.Blocks() && l.visits[j].task.address in l.order.Blocks()
    ensures var s, t := l.visits[i].task, l.visits[j].task;
            s.node == t.node ==> s.address + l.order.block <= t.address || t.address + l.order.block <= s.address
  {
    var s, t, blocks := l.visits[i].task, l.visits[j].task, l.order.Blocks();
    assert TasksOf(l.visits)[i] == s && TasksOf(l.visits)[j] == t && s != t;
    StartsIncrease(l.order.start, l.order.end, l.order.block);
    var x :| 0 <= x < |blocks| && blocks[x] == s.address;
    var y :| 0 <= y < |blocks| && blocks[y] == t.address;
  }

  /** And each of them once. */
  lemma EachFoundOnce(l: Ledger)
    requires Over(l) && NoRepeats(l.order.nodes)
    ensures NoRepeats(l.job.matches)
  {
    var o := l.order;
    StartsIncrease(o.start, o.end, o.block);
    TasksDoNotRepeat(o.nodes, o.Blocks());
    forall i | 0 <= i < |l.visits|
      ensures l.visits[i].task.address in o.Blocks()
    {
      VisitIsListed(l, i);
    }
    HitsDoNotRepeat(l);
  }

  /** A job goes on: its order stays, what it has read stays, and the new blocks and records are as the
      controllers hold them. */
  ghost predicate Continues(l: Ledger, m: Ledger, tables: map<byte, Tables>) {
    && m.order == l.order
    && l.visits <= m.visits
    && (forall i :: |l.visits| <= i < |m.visits| ==> Faithful(m.order, m.visits[i], tables))
    && Probes(l.order, l.compact, m.compact, tables)
  }

  ghost predicate Probes(o: Order, before: Compact, after: Compact, tables: map<byte, Tables>) {
    && (forall n :: n in before ==> n in after && after[n] == before[n])
    && forall n :: n in after && n !in before ==> RecordsHeld(o, after[n], n, tables)
  }

  ghost predicate AllContinue(before: map<nat, Ledger>, after: map<nat, Ledger>, tables: map<byte, Tables>) {
    after.Keys == before.Keys && forall k :: k in before ==> Continues(before[k], after[k], tables)
  }

  lemma EnteredContinues(ledgers: map<nat, Ledger>, id: nat, compact: Compact, v: Visit, last: bool,
                         tables: map<byte, Tables>)
    requires id in ledgers && Faithful(ledgers[id].order, v, tables)
    requires Probed(ledgers[id].order, ledgers[id].compact, compact, v.task.node, tables)
    ensures AllContinue(ledgers, ledgers[id := Entered(ledgers[id], compact, v, last)], tables)
  {
    var l, m := ledgers[id], Entered(ledgers[id], compact, v, last);
    assert Probes(l.order, l.compact, m.compact, tables);
    assert Continues(l, m, tables);
  }

  lemma RetiredContinues(ledgers: map<nat, Ledger>, id: nat, tables: map<byte, Tables>)
    requires id in ledgers
    ensures AllContinue(ledgers, ledgers[id := ledgers[id].(job := ledgers[id].job.(state := Completed))], tables)
  {
  }

  lemma ContinueTwice(a: map<nat, Ledger>, b: map<nat, Ledger>, c: map<nat, Ledger>, tables: map<byte, Tables>)
    requires AllContinue(a, b, tables) && AllContinue(b, c, tables)
    ensures AllContinue(a, c, tables)
  {
    forall k | k in a
      ensures Continues(a[k], c[k], tables)
    {
      OneContinuesTwice(a[k], b[k], c[k], tables);
    }
  }

  lemma OneContinuesTwice(l: Ledger, m: Ledger, n: Ledger, tables: map<byte, Tables>)
    requires Continues(l, m, tables) && Continues(m, n, tables)
    ensures Continues(l, n, tables)
  {
    assert forall i :: 0 <= i < |m.visits| ==> n.visits[i] == m.visits[i];
  }

  /** As long as the tables stay, what a job has read is what they hold, across any number of batches. */
  lemma ShowsOn(l: Ledger, m: Ledger, tables: map<byte, Tables>)
    requires Shows(l, tables) && Continues(l, m, tables)
    ensures Shows(m, tables)
  {
    forall i | 0 <= i < |m.visits|
      ensures Faithful(m.order, m.visits[i], tables)
    {
      if i < |l.visits| {
        assert m.visits[i] == l.visits[i];
      }
    }
  }

  class EepromSearcher {
    const bus: Bus
    const proto: Unex721Protocol
    var queue: seq<Pending>
    var ledgers: map<nat, Ledger>
    var nextId: nat

    constructor (bus: Bus)
      requires bus.Valid()
      ensures Valid() && this.bus == bus
      ensures queue == [] && ledgers == map[]
    {
      this.bus := bus;
      proto := new Unex721Protocol(bus);
      queue, ledgers, nextId := [], map[], 1;
    }

    ghost predicate Valid()
      reads this, proto, bus
    {
      proto.bus == bus && bus.Valid() && Consistent(queue, ledgers, nextId, IdOf, Going, Over)
    }

    method QueueEepromSearch(series: word, number: word, nodes: seq<byte>, start: int, end: int, block: nat,
                             addresses: seq<int>)
      returns (id: nat)
      requires Valid() && (start <= end ==> 0 <= start && end < IMAGE) && block >= 1
      modifies this
      ensures Valid()
      ensures id == old(nextId) && id in ledgers
      ensures var o := Order(series, number, nodes, start, end, block, Prepared(addresses));
              o.WellFormed() && ledgers[id] == NewLedger(o)
      ensures nodes == [] || start > end ==> Over(ledgers[id]) && queue == old(queue)
    {
      PreparedMeaning(addresses);
      var o := Order(series, number, nodes, start, end, block, Prepared(addresses));
      id := nextId;
      nextId := nextId + 1;
      var p, l := Pending(id, o, 0, o.start, map[]), NewLedger(o);
      NewJob(id, o, l);
      JobAdded(queue, ledgers, id, IdOf, Going, Over, p, l, o.Idle());
      ledgers := ledgers[id := l];
      if l.job.state == Queued {
        queue := queue + [p];
      }
    }

    /** The head moves on, or leaves finished. */
    method Replace(head: Option<Pending>, l: Ledger)
      requires Valid() && queue != []
      requires head.Some? ==> head.value.id == queue[0].id && Going(head.value, l)
      requires head.None? ==> Over(l)
      requires queue[0].id in ledgers
      modifies this`ledgers, this`queue
      ensures Valid()
      ensures queue == WithHead(old(queue), head)
      ensures ledgers == old(ledgers)[old(queue)[0].id := l]
    {
      assert IdOf(queue[0]) == queue[0].id && (head.Some? ==> IdOf(head.value) == head.value.id);
      HeadChanged(queue, ledgers, nextId, IdOf, Going, Over, head, l);
      queue, ledgers := WithHead(queue, head), ledgers[queue[0].id := l];
    }

    /** The job at the head has no block left: it is completed and taken off. */
    method Retire()
      requires Valid() && queue != [] && queue[0].controllerIndex >= |queue[0].order.nodes|
      modifies this`ledgers, this`queue
      ensures Valid()
      ensures queue == WithHead(old(queue), None) && Remaining(queue, Work) < Remaining(old(queue), Work)
      ensures var id := old(queue)[0].id;
              && id in old(ledgers)
              && ledgers == old(ledgers)[id := old(ledgers)[id].(job := old(ledgers)[id].job.(state := Completed))]
      ensures AllContinue(old(ledgers), ledgers, bus.tables)
    {
      var p := queue[0];
      HeadIsGoing(queue, ledgers, nextId, IdOf, Going, Over);
      NothingLeft(p, ledgers[p.id]);
      HeadShrinks(queue, Work, None);
      RetiredContinues(ledgers, p.id, bus.tables);
      Replace(None, ledgers[p.id].(job := ledgers[p.id].job.(state := Completed)));
    }

    /** The hits of a block go into the results as long as there is room. */
    method Keep(j: Job, found: seq<Hit>) returns (matches: seq<Hit>, truncated: bool)
      requires |j.matches| <= MAX_RESULTS
      ensures matches == First(MAX_RESULTS, j.matches + found)
      ensures truncated <==> j.truncated || |j.matches| + |found| > MAX_RESULTS
    {
      matches, truncated := j.matches, j.truncated;
      for i := 0 to |found|
        invariant |matches| <= MAX_RESULTS
        invariant matches == First(MAX_RESULTS, j.matches + found[..i])
        invariant truncated <==> j.truncated || |j.matches| + i > MAX_RESULTS
      {
        assert j.matches + found[..i + 1] == j.matches + found[..i] + [found[i]];
        if |matches| < MAX_RESULTS {
          matches := matches + [found[i]];
        } else {
          truncated := true;
        }
      }
      assert found[..|found|] == found;
    }

    /** Searches a block that was read and enters the result. */
    method Enter(l: Ledger, compact: Compact, v: Visit, last: bool) returns (entered: Ledger)
      requires |l.job.matches| <= MAX_RESULTS && |l.job.errors| <= MAX_ERRORS
      ensures entered == Entered(l, compact, v, last)
    {
      var found := [];
      var core := Core(v.task.address, l.order.end, l.order.block);
      if v.data.Some? && core >= 0 {
        found := SearchBlock(v.task.node, v.task.address, core, v.patterns, v.data.value);
      }
      var matches, truncated := Keep(l.job, found);
      var failed, errors := l.job.failed, l.job.errors;
      if v.data.None? {
        failed := failed + 1;
        if |errors| < MAX_ERRORS {
          errors := errors + [v.task];
        }
      }
      var j := Job(if last then Completed else Running, l.job.total, l.job.completed + 1, failed, truncated, matches, errors);
      entered := Ledger(j, l.order, compact, l.visits + [v]);
    }

    /** A block is entered into the job at the head, and the cursor moves. */
    method Note(compact: Compact, v: Visit, last: bool)
      requires Valid() && queue != [] && Due(queue[0], compact, v, last, bus.tables)
      modifies this`ledgers, this`queue
      ensures Valid()
      ensures queue == WithHead(old(queue), NextHead(old(queue)[0], compact, last))
      ensures var id := old(queue)[0].id;
              id in old(ledgers) && ledgers == old(ledgers)[id := Entered(old(ledgers)[id], compact, v, last)]
    {
      var p := queue[0];
      HeadIsGoing(queue, ledgers, nextId, IdOf, Going, Over);
      var l := ledgers[p.id];
      RoomForResults(p, l);
      var m := Enter(l, compact, v, last);
      VisitStep(p, l, compact, v, last, m, bus.tables);
      Replace(NextHead(p, compact, last), m);
    }

    /** One 87H; a present record of eight bytes is kept. */
    method ProbeOne(o: Order, node: byte, i: nat,
                    before: seq<(int, seq<byte>)>) returns (records: seq<(int, seq<byte>)>)
      requires Valid() && o.WellFormed() && i < |o.probes| && RecordsHeld(o, before, node, bus.tables)
      requires before != [] ==> i > 0 && before[|before| - 1].0 <= o.probes[i - 1]
      modifies bus
      ensures Valid() && Grown(old(bus.fifos), bus.fifos)
      ensures bus.tables == old(bus.tables) && bus.writes == old(bus.writes)
      ensures RecordsHeld(o, records, node, bus.tables)
      ensures records != [] ==> records[|records| - 1].0 <= o.probes[i]
    {
      var u := proto.ReadUser(node, o.probes[i]);
      records := before;
      if u.ok && u.present && |u.rawRecord| == H_RECORD {
        records := before + [(o.probes[i], u.rawRecord)];
        RecordAdded(o, before, i, u.rawRecord, node, bus.tables);
      }
    }

    /** Before the first block of a node, the listed user addresses are read with 87H. */
    method Probe(o: Order, compact: Compact, node: byte) returns (after: Compact)
      requires Valid() && o.WellFormed()
      modifies bus
      ensures Valid() && Grown(old(bus.fifos), bus.fifos)
      ensures bus.tables == old(bus.tables) && bus.writes == old(bus.writes)
      ensures Probed(o, compact, after, node, bus.tables)
    {
      if o.probes == [] || node in compact {
        return compact;
      }
      var records: seq<(int, seq<byte>)> := [];
      ghost var fifos := bus.fifos;
      for i := 0 to |o.probes|
        invariant Valid() && Grown(fifos, bus.fifos)
        invariant bus.tables == old(bus.tables) && bus.writes == old(bus.writes)
        invariant RecordsHeld(o, records, node, bus.tables)
        invariant records != [] ==> i > 0 && records[|records| - 1].0 <= o.probes[i - 1]
      {
        ghost var f := bus.fifos;
        records := ProbeOne(o, node, i, records);
        GrownTwice(fifos, f, bus.fifos);
      }
      after := compact[node := records];
    }

    /** Reads the core of a block and its overlap. */
    method FetchBlock(o: Order, task: Task, ghost patterns: seq<Pattern>) returns (data: Option<seq<byte>>)
      requires Valid() && o.WellFormed() && o.start <= task.address <= o.end
      modifies bus
      ensures Valid() && Grown(old(bus.fifos), bus.fifos)
      ensures bus.tables == old(bus.tables) && bus.writes == old(bus.writes)
      ensures Faithful(o, Visit(task, patterns, data), bus.tables)
    {
      data := proto.ReadEeprom(task.node, task.address, ReadLength(task.address, Core(task.address, o.end, o.block)));
      ReadIsFaithful(o, Visit(task, patterns, data), bus.tables);
    }

    /** Reads a block, after the user addresses if it is the node's first. */
    method ReadBlock(o: Order, compact: Compact, task: Task) returns (after: Compact, v: Visit)
      requires Valid() && o.WellFormed() && o.start <= task.address <= o.end
      modifies bus
      ensures Valid() && Grown(old(bus.fifos), bus.fifos)
      ensures bus.tables == old(bus.tables) && bus.writes == old(bus.writes)
      ensures Probed(o, compact, after, task.node, bus.tables)
      ensures v.task == task && v.patterns == PatternsFor(o, after, task.node)
      ensures Faithful(o, v, bus.tables)
    {
      ghost var f0 := bus.fifos;
      after := Probe(o, compact, task.node);
      ghost var f1 := bus.fifos;
      var data := FetchBlock(o, task, PatternsFor(o, after, task.node));
      GrownTwice(f0, f1, bus.fifos);
      v := Visit(task, PatternsFor(o, after, task.node), data);
    }

    /** The block at the cursor of the head is read, searched and entered. */
    method NextBlock() returns (last: bool)
      requires Valid() && queue != [] && queue[0].WellFormed() && queue[0].controllerIndex < |queue[0].order.nodes|
      modifies this`ledgers, this`queue, bus
      ensures Valid() && Grown(old(bus.fifos), bus.fifos)
      ensures bus.tables == old(bus.tables) && bus.writes == old(bus.writes)
      ensures Remaining(queue, Work) < Remaining(old(queue), Work)
      ensures AllContinue(old(ledgers), ledgers, bus.tables)
    {
      var p := queue[0];
      HeadIsGoing(queue, ledgers, nextId, IdOf, Going, Over);
      last := p.Advanced().controllerIndex >= |p.order.nodes|;
      CursorInRange(p);
      var compact, v := ReadBlock(p.order, p.compact, Task(p.order.nodes[p.controllerIndex], p.nextAddress));
      WorkShrinks(p, compact);
      HeadShrinks(queue, Work, NextHead(p, compact, last));
      EnteredContinues(ledgers, p.id, compact, v, last, bus.tables);
      Note(compact, v, last);
    }

    /** One step of the job at the head of the queue. */
    method SearchStep() returns (last: bool)
      requires Valid() && queue != []
      modifies this`ledgers, this`queue, bus
      ensures Valid() && Grown(old(bus.fifos), bus.fifos)
      ensures bus.tables == old(bus.tables) && bus.writes == old(bus.writes)
      ensures Remaining(queue, Work) < Remaining(old(queue), Work)
      ensures AllContinue(old(ledgers), ledgers, bus.tables)
    {
      HeadIsGoing(queue, ledgers, nextId, IdOf, Going, Over);
      if queue[0].controllerIndex < |queue[0].order.nodes| {
        last := NextBlock();
      } else {
        Retire();
        last := false;
      }
    }

    /** At most four blocks, and none after the last one of a job: another job waits for the next call.
        Every block that is entered is as the controllers hold it. */
    method ProcessEepromSearchBatch()
      requires Valid()
      modifies this`ledgers, this`queue, bus
      ensures Valid() && Grown(old(bus.fifos), bus.fifos)
      ensures bus.tables == old(bus.tables) && bus.writes == old(bus.writes)
      ensures old(queue) != [] ==> Remaining(queue, Work) < Remaining(old(queue), Work)
      ensures AllContinue(old(ledgers), ledgers, bus.tables)
    {
      var batch := 0;
      while batch < BATCH
        invariant Valid() && Grown(old(bus.fifos), bus.fifos)
        invariant bus.tables == old(bus.tables) && bus.writes == old(bus.writes)
        invariant if batch == 0 then queue == old(queue) else Remaining(queue, Work) < Remaining(old(queue), Work)
        invariant AllContinue(old(ledgers), ledgers, bus.tables)
      {
        if queue == [] {
          return;
        }
        ghost var f, l := bus.fifos, ledgers;
        var last := SearchStep();
        GrownTwice(old(bus.fifos), f, bus.fifos);
        ContinueTwice(old(ledgers), l, ledgers, bus.tables);
        batch := batch + 1;
        if last {
          return;
        }
      }
    }
  }

  lemma CursorInRange(p: Pending)
    requires p.WellFormed() && p.controllerIndex < |p.order.nodes|
    ensures p.order.start <= p.nextAddress <= p.order.end
  {
    BlockStep(p);
    StartsIncrease(p.order.start, p.order.end, p.order.block);
    assert p.order.Blocks()[p.BlockIndex()] in p.order.Blocks();
  }

  lemma RoomForResults(p: Pending, l: Ledger)
    requires Going(p, l)
    ensures |l.job.matches| <= MAX_RESULTS && |l.job.errors| <= MAX_ERRORS
  {
  }
}
