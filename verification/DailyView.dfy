/** The daily view: one record per user, folded from the arrivals and departures of a day. */
module DailyView {
  import opened Bytes
  import opened Wrappers
  import opened Text
  import opened CardText
  import opened Framing
  import opened Events
  import opened Attendance
  import FifoDrain
  import opened ReadTasks

  /** A stored event as the view reads it; times are text. */
  datatype DayEvent = DayEvent(time: string, kind: Kind, userId: int, userName: string, card: string)

  datatype Day = Day(userId: int, userName: string, card: string, arrival: string, departure: string,
                     presence: Presence, lastEvent: string)

  predicate Counts(e: DayEvent) {
    (e.kind == Arrival || e.kind == Departure) && e.userId > 0
  }

  /** The arrivals and departures of one user. */
  function Mine(events: seq<DayEvent>, id: int): seq<DayEvent> {
    if events == [] then []
    else
      var e := events[|events| - 1];
      Mine(events[..|events| - 1], id) + (if Counts(e) && e.userId == id then [e] else [])
  }

  /** The first time of an arrival, if any. */
  function FirstArrival(mine: seq<DayEvent>): string {
    if mine == [] then ""
    else
      var before, e := FirstArrival(mine[..|mine| - 1]), mine[|mine| - 1];
      if before == "" && e.kind == Arrival then e.time else before
  }

  /** What the day of a user comes to. */
  function Summary(id: int, mine: seq<DayEvent>): Day
    requires mine != []
  {
    var last := mine[|mine| - 1];
    Day(id, last.userName, last.card, FirstArrival(mine),
        if last.kind == Departure then last.time else "",
        if last.kind == Arrival then Present else Absent, last.time)
  }

  const BLANK_DAY := Day(0, "", "", "", "", Absent, "")

  lemma MineSnoc(events: seq<DayEvent>, e: DayEvent, id: int)
    ensures Mine(events + [e], id) == if Counts(e) && e.userId == id then Mine(events, id) + [e] else Mine(events, id)
  {
    assert (events + [e])[..|events|] == events;
  }

  ghost predicate Summarises(byUser: map<int, Day>, events: seq<DayEvent>) {
    forall id ::
      && (id in byUser <==> Mine(events, id) != [])
      && (id in byUser ==> byUser[id] == Summary(id, Mine(events, id)))
  }

  /** How an event changes the record of its user. A return after leaving makes the earlier departure
      an intermediate one. */
  function Updated(x: Day, e: DayEvent): Day {
    Day(e.userId, e.userName, e.card,
        if e.kind == Arrival && x.arrival == "" then e.time else x.arrival,
        if e.kind == Arrival then "" else e.time,
        if e.kind == Arrival then Present else Absent, e.time)
  }

  lemma UpdatedSummary(id: int, mine: seq<DayEvent>, e: DayEvent)
    requires Counts(e) && e.userId == id
    ensures Updated(if mine == [] then BLANK_DAY else Summary(id, mine), e) == Summary(id, mine + [e])
  {
    var all := mine + [e];
    assert all[..|all| - 1] == mine && all[|all| - 1] == e;
    assert FirstArrival(all) == if FirstArrival(mine) == "" && e.kind == Arrival then e.time else FirstArrival(mine);
  }

  function Entered(byUser: map<int, Day>, e: DayEvent): map<int, Day> {
    if Counts(e) then byUser[e.userId := Updated(if e.userId in byUser then byUser[e.userId] else BLANK_DAY, e)] else byUser
  }

  lemma EnteredSummarises(byUser: map<int, Day>, events: seq<DayEvent>, e: DayEvent)
    requires Summarises(byUser, events)
    ensures Summarises(Entered(byUser, e), events + [e])
  {
    var r := Entered(byUser, e);
    forall id
      ensures id in r <==> Mine(events + [e], id) != []
      ensures id in r ==> r[id] == Summary(id, Mine(events + [e], id))
    {
      MineSnoc(events, e, id);
      if Counts(e) && id == e.userId {
        UpdatedSummary(id, Mine(events, id), e);
      }
    }
  }

  /** The users of the map, in its increasing order. */
  ghost predicate KeysOf(keys: seq<int>, byUser: map<int, Day>) {
    Increasing(keys) && forall id :: id in keys <==> id in byUser
  }

  function KeysAfter(keys: seq<int>, e: DayEvent): seq<int> {
    if Counts(e) then Insert(keys, e.userId) else keys
  }

  lemma KeysStay(keys: seq<int>, byUser: map<int, Day>, e: DayEvent)
    requires KeysOf(keys, byUser)
    ensures KeysOf(KeysAfter(keys, e), Entered(byUser, e))
  {
    InsertKeeps(keys, e.userId);
  }

  lemma EnteredNext(byUser: map<int, Day>, events: seq<DayEvent>, i: nat)
    requires i < |events| && Summarises(byUser, events[..i])
    ensures Summarises(Entered(byUser, events[i]), events[..i + 1])
  {
    EnteredSummarises(byUser, events[..i], events[i]);
    assert events[..i + 1] == events[..i] + [events[i]];
  }

  /** The records by user, and the users in the order of the map, which is increasing. */
  method FoldDay(events: seq<DayEvent>) returns (byUser: map<int, Day>, keys: seq<int>)
    ensures Summarises(byUser, events)
    ensures KeysOf(keys, byUser)
  {
    byUser, keys := map[], [];
    for i := 0 to |events|
      invariant Summarises(byUser, events[..i])
      invariant KeysOf(keys, byUser)
    {
      EnteredNext(byUser, events, i);
      KeysStay(keys, byUser, events[i]);
      keys := KeysAfter(keys, events[i]);
      byUser := Entered(byUser, events[i]);
    }
    assert events[..|events|] == events;
  }

  // ---- the order of the view ----

  predicate StringLess(a: string, b: string) {
    if b == "" then false
    else if a == "" then true
    else if a[0] != b[0] then a[0] < b[0]
    else StringLess(a[1..], b[1..])
  }

  lemma {:induction false} StringLessIsTotal(a: string, b: string)
    ensures !(StringLess(a, b) && StringLess(b, a))
    ensures a != b <==> StringLess(a, b) || StringLess(b, a)
    decreases |a|
  {
    if a != "" && b != "" && a[0] == b[0] {
      StringLessIsTotal(a[1..], b[1..]);
      assert a == [a[0]] + a[1..] && b == [b[0]] + b[1..];
    }
  }

  lemma {:induction false} StringLessIsTransitive(a: string, b: string, c: string)
    requires StringLess(a, b) && StringLess(b, c)
    ensures StringLess(a, c)
    decreases |a|
  {
    if a != "" && a[0] == b[0] == c[0] {
      StringLessIsTransitive(a[1..], b[1..], c[1..]);
    }
  }

  /** Those present first, then by arrival with missing ones last, then by name. */
  predicate Before(a: Day, b: Day) {
    if a.presence != b.presence then a.presence == Present
    else if a.arrival != b.arrival then
      if a.arrival == "" then false
      else if b.arrival == "" then true
      else StringLess(a.arrival, b.arrival)
    else StringLess(a.userName, b.userName)
  }

  /** A sort may only be given a strict weak order: this is one. */
  lemma BeforeIsStrictWeak(a: Day, b: Day, c: Day)
    ensures !Before(a, a)
    ensures Before(a, b) ==> !Before(b, a)
    ensures Before(a, b) && Before(b, c) ==> Before(a, c)
    ensures !Before(a, b) && !Before(b, c) ==> !Before(a, c)
  {
    StringLessIsTotal(a.userName, a.userName);
    StringLessIsTotal(a.arrival, b.arrival);
    StringLessIsTotal(a.userName, b.userName);
    ChainOf(a.arrival, b.arrival, c.arrival);
    ChainOf(a.userName, b.userName, c.userName);
  }

  lemma ChainOf(a: string, b: string, c: string)
    ensures StringLess(a, b) && StringLess(b, c) ==> StringLess(a, c)
    ensures !StringLess(a, b) && !StringLess(b, c) ==> !StringLess(a, c)
  {
    StringLessIsTotal(a, b);
    StringLessIsTotal(b, c);
    StringLessIsTotal(a, c);
    if StringLess(a, b) && StringLess(b, c) {
      StringLessIsTransitive(a, b, c);
    }
    if StringLess(c, b) && StringLess(b, a) {
      StringLessIsTransitive(c, b, a);
    }
  }

  ghost predicate Sorted(days: seq<Day>) {
    forall i, j :: 0 <= i < j < |days| ==> !Before(days[j], days[i])
  }

  /** Puts a record into a sorted list. */
  function InsertDay(days: seq<Day>, d: Day): seq<Day> {
    if days == [] || !Before(d, days[|days| - 1]) then days + [d]
    else InsertDay(days[..|days| - 1], d) + [days[|days| - 1]]
  }

  lemma {:induction false} InsertDayMembers(days: seq<Day>, d: Day)
    ensures multiset(InsertDay(days, d)) == multiset(days) + multiset{d}
  {
    if days != [] && Before(d, days[|days| - 1]) {
      InsertDayMembers(days[..|days| - 1], d);
      assert days == days[..|days| - 1] + [days[|days| - 1]];
    }
  }

  lemma {:induction false} InsertDaySorts(days: seq<Day>, d: Day)
    requires Sorted(days)
    ensures Sorted(InsertDay(days, d))
  {
    if days != [] {
      var n := |days| - 1;
      if Before(d, days[n]) {
        InsertDaySorts(days[..n], d);
        var r := InsertDay(days[..n], d);
        InsertDayMembers(days[..n], d);
        forall i | 0 <= i < |r|
          ensures !Before(days[n], r[i])
        {
          assert r[i] in multiset(r);
          if r[i] in multiset(days[..n]) {
            assert r[i] in days[..n];
          } else {
            BeforeIsStrictWeak(d, days[n], d);
          }
        }
      } else {
        forall i | 0 <= i < n
          ensures !Before(d, days[i])
        {
          BeforeIsStrictWeak(d, days[n], days[i]);
        }
      }
    }
  }

  /** The records of the map in the order of the view. */
  method SortDays(byUser: map<int, Day>, keys: seq<int>) returns (out: seq<Day>)
    requires Increasing(keys) && forall id :: id in keys <==> id in byUser
    requires forall id :: id in byUser ==> byUser[id].userId == id
    ensures Sorted(out)
    ensures forall d :: multiset(out)[d] == if d.userId in byUser && d == byUser[d.userId] then 1 else 0
  {
    out := [];
    for k := 0 to |keys|
      invariant Sorted(out)
      invariant forall d :: multiset(out)[d] == if d.userId in keys[..k] && d == byUser[d.userId] then 1 else 0
    {
      assert keys[..k + 1] == keys[..k] + [keys[k]] && keys[k] !in keys[..k];
      assert keys[k] in keys;
      InsertDaySorts(out, byUser[keys[k]]);
      InsertDayMembers(out, byUser[keys[k]]);
      out := InsertDay(out, byUser[keys[k]]);
    }
    assert keys[..|keys|] == keys;
  }

  /** The daily view: sorted, one record per user with an arrival or departure, each the summary of
      that user's events. */
  method LoadDailyAttendance(events: seq<DayEvent>) returns (out: seq<Day>)
    ensures Sorted(out)
    ensures forall d :: d in out <==> Mine(events, d.userId) != [] && d == Summary(d.userId, Mine(events, d.userId))
    ensures forall d :: d in out ==> multiset(out)[d] == 1
  {
    var byUser, keys := FoldDay(events);
    out := SortDays(byUser, keys);
    forall d
      ensures d in out <==> Mine(events, d.userId) != [] && d == Summary(d.userId, Mine(events, d.userId))
    {
      assert d in out <==> d in multiset(out);
    }
  }

  // ---- the view and the engine ----

  function EventOf(row: Row, time: Row -> string, name: Row -> string): DayEvent {
    DayEvent(time(row), row.kind, row.userId, name(row), row.card)
  }

  /** A row goes behind all rows that are not later. */
  function InsertByTime(events: seq<DayEvent>, e: DayEvent): seq<DayEvent> {
    if events == [] || !StringLess(e.time, events[|events| - 1].time) then events + [e]
    else InsertByTime(events[..|events| - 1], e) + [events[|events| - 1]]
  }

  /** ORDER BY timestamp, id: by time, and in the order of the log at one time. */
  function ByTime(events: seq<DayEvent>): seq<DayEvent> {
    if events == [] then [] else InsertByTime(ByTime(events[..|events| - 1]), events[|events| - 1])
  }

  ghost predicate InTimeOrder(events: seq<DayEvent>) {
    forall i, j :: 0 <= i < j < |events| ==> !StringLess(events[j].time, events[i].time)
  }

  lemma {:induction false} InsertByTimeMembers(events: seq<DayEvent>, e: DayEvent)
    ensures multiset(InsertByTime(events, e)) == multiset(events) + multiset{e}
  {
    if events != [] {
      InsertByTimeMembers(events[..|events| - 1], e);
      assert events == events[..|events| - 1] + [events[|events| - 1]];
    }
  }

  ghost predicate NoneAfter(events: seq<DayEvent>, time: string) {
    forall x :: x in events ==> !StringLess(time, x.time)
  }

  lemma TimeOrderSnoc(events: seq<DayEvent>, last: DayEvent)
    ensures InTimeOrder(events) && NoneAfter(events, last.time) <==> InTimeOrder(events + [last])
  {
    var all := events + [last];
    assert forall i :: 0 <= i < |events| ==> all[i] == events[i];
    if InTimeOrder(all) {
      forall x | x in events
        ensures !StringLess(last.time, x.time)
      {
        var i :| 0 <= i < |events| && events[i] == x;
        assert !StringLess(all[|events|].time, all[i].time);
      }
    }
  }

  lemma {:induction false} InsertByTimeOrders(events: seq<DayEvent>, e: DayEvent)
    requires InTimeOrder(events)
    ensures InTimeOrder(InsertByTime(events, e))
  {
    if events != [] {
      var rest, last := events[..|events| - 1], events[|events| - 1];
      assert events == rest + [last];
      TimeOrderSnoc(rest, last);
      if StringLess(e.time, last.time) {
        InsertByTimeOrders(rest, e);
        StringLessIsTotal(e.time, last.time);
        InsertedNotAfter(rest, e, last.time);
        TimeOrderSnoc(InsertByTime(rest, e), last);
      } else {
        forall x | x in events
          ensures !StringLess(e.time, x.time)
        {
          ChainOf(e.time, last.time, x.time);
        }
        TimeOrderSnoc(events, e);
      }
    }
  }

  lemma InsertedNotAfter(rest: seq<DayEvent>, e: DayEvent, time: string)
    requires NoneAfter(rest, time) && !StringLess(time, e.time)
    ensures NoneAfter(InsertByTime(rest, e), time)
  {
    InsertByTimeMembers(rest, e);
    forall x | x in InsertByTime(rest, e)
      ensures x in rest || x == e
    {
      assert x in multiset(InsertByTime(rest, e));
    }
  }

  lemma ByTimeStep(rest: seq<DayEvent>, sorted: seq<DayEvent>, e: DayEvent)
    requires InTimeOrder(sorted) && multiset(sorted) == multiset(rest)
    ensures InTimeOrder(InsertByTime(sorted, e)) && multiset(InsertByTime(sorted, e)) == multiset(rest + [e])
  {
    InsertByTimeOrders(sorted, e);
    InsertByTimeMembers(sorted, e);
  }

  /** What the query returns: the same rows, in the order of time. */
  lemma {:induction false} ByTimeOrders(events: seq<DayEvent>)
    ensures InTimeOrder(ByTime(events)) && multiset(ByTime(events)) == multiset(events)
  {
    if events != [] {
      var rest, last := events[..|events| - 1], events[|events| - 1];
      ByTimeOrders(rest);
      ByTimeStep(rest, ByTime(rest), last);
      assert events == rest + [last];
    }
  }

  /** Rows that are in the order of time already stay as they are. */
  lemma {:induction false} ByTimeIsIdle(events: seq<DayEvent>)
    requires InTimeOrder(events)
    ensures ByTime(events) == events
  {
    if events != [] {
      ByTimeIsIdle(events[..|events| - 1]);
      assert events == events[..|events| - 1] + [events[|events| - 1]];
    }
  }

  /** The rows the view is made of: a day file as it was written, or the database's answer. */
  function LoadEvents(backend: Backend, log: seq<Row>, date: (int, int, int), time: Row -> string,
                      name: Row -> string): seq<DayEvent> {
    var day := DayOf(log, date, time, name);
    if backend == Db then ByTime(day) else day
  }

  /** The rows of one date, in the order of the log. */
  function DayOf(log: seq<Row>, date: (int, int, int), time: Row -> string, name: Row -> string): seq<DayEvent> {
    if log == [] then []
    else
      var row := log[|log| - 1];
      DayOf(log[..|log| - 1], date, time, name)
      + (if row.stamp.Date() == date then [EventOf(row, time, name)] else [])
  }

  function DatedToggles(ts: seq<Row>, date: (int, int, int)): seq<Row> {
    if ts == [] then []
    else DatedToggles(ts[..|ts| - 1], date) + (if ts[|ts| - 1].stamp.Date() == date then [ts[|ts| - 1]] else [])
  }

  lemma DatedSnoc(ts: seq<Row>, row: Row, date: (int, int, int))
    ensures DatedToggles(ts + [row], date) == if row.stamp.Date() == date then DatedToggles(ts, date) + [row] else DatedToggles(ts, date)
  {
    assert (ts + [row])[..|ts|] == ts;
  }

  /** The events the view counts for a user are that user's toggles of the date. */
  lemma {:induction false} MineAreToggles(log: seq<Row>, date: (int, int, int), time: Row -> string,
                                          name: Row -> string, id: int)
    requires id > 0
    ensures var mine, ts := Mine(DayOf(log, date, time, name), id), DatedToggles(TogglesOf(log, id), date);
            |mine| == |ts| && forall i :: 0 <= i < |ts| ==> mine[i] == EventOf(ts[i], time, name)
  {
    if log != [] {
      var row, rest := log[|log| - 1], log[..|log| - 1];
      var day := DayOf(rest, date, time, name);
      MineAreToggles(rest, date, time, name, id);
      assert log == rest + [row];
      TogglesSnoc(rest, row, id);
      DatedSnoc(TogglesOf(rest, id), row, date);
      if row.stamp.Date() == date {
        MineSnoc(day, EventOf(row, time, name), id);
      } else {
        assert DayOf(log, date, time, name) == day;
      }
    }
  }

  // ---- what a database makes of the rows of one user ----

  /** The latest row, and of rows of one time the one stored last. */
  function Latest(mine: seq<DayEvent>): DayEvent
    requires mine != []
  {
    var last := mine[|mine| - 1];
    if |mine| == 1 then last
    else
      var before := Latest(mine[..|mine| - 1]);
      if StringLess(last.time, before.time) then before else last
  }

  /** No row is later than the k-th, and those after it are earlier. */
  ghost predicate IsLatest(mine: seq<DayEvent>, k: nat) {
    && k < |mine|
    && (forall i :: 0 <= i < |mine| ==> !StringLess(mine[k].time, mine[i].time))
    && forall i :: k < i < |mine| ==> StringLess(mine[i].time, mine[k].time)
  }

  lemma StaysLatest(rest: seq<DayEvent>, last: DayEvent, k: nat)
    requires IsLatest(rest, k) && StringLess(last.time, rest[k].time)
    ensures IsLatest(rest + [last], k)
  {
    StringLessIsTotal(last.time, rest[k].time);
  }

  lemma BecomesLatest(rest: seq<DayEvent>, last: DayEvent, k: nat)
    requires IsLatest(rest, k) && !StringLess(last.time, rest[k].time)
    ensures IsLatest(rest + [last], |rest|)
  {
    StringLessIsTotal(last.time, last.time);
    forall i | 0 <= i < |rest|
      ensures !StringLess(last.time, rest[i].time)
    {
      ChainOf(last.time, rest[k].time, rest[i].time);
    }
  }

  lemma {:induction false} LatestMeaning(mine: seq<DayEvent>)
    requires mine != []
    ensures exists k: nat :: IsLatest(mine, k) && mine[k] == Latest(mine)
  {
    var rest, last := mine[..|mine| - 1], mine[|mine| - 1];
    assert mine == rest + [last];
    if rest == [] {
      StringLessIsTotal(last.time, last.time);
      assert IsLatest(mine, 0);
    } else {
      LatestMeaning(rest);
      var k: nat :| IsLatest(rest, k) && rest[k] == Latest(rest);
      if StringLess(last.time, rest[k].time) {
        StaysLatest(rest, last, k);
        assert mine[k] == Latest(mine);
      } else {
        BecomesLatest(rest, last, k);
        assert mine[|rest|] == Latest(mine);
      }
    }
  }

  lemma {:induction false} InsertEnd(sorted: seq<DayEvent>, e: DayEvent)
    requires sorted != []
    ensures var s, last := InsertByTime(sorted, e), sorted[|sorted| - 1];
            |s| == |sorted| + 1 && s[|sorted|] == if StringLess(e.time, last.time) then last else e
  {
    var rest, last := sorted[..|sorted| - 1], sorted[|sorted| - 1];
    if StringLess(e.time, last.time) && rest != [] {
      InsertEnd(rest, e);
    }
  }

  lemma {:induction false} LastByTime(mine: seq<DayEvent>)
    requires mine != []
    ensures |ByTime(mine)| == |mine| && ByTime(mine)[|mine| - 1] == Latest(mine)
  {
    var rest, last := mine[..|mine| - 1], mine[|mine| - 1];
    if rest == [] {
      assert ByTime(rest) == [];
    } else {
      LastByTime(rest);
      InsertEnd(ByTime(rest), last);
    }
  }

  /** Sorting all rows sorts those of each user. */
  lemma {:induction false} MineOfInsert(events: seq<DayEvent>, e: DayEvent, id: int)
    requires InTimeOrder(events)
    ensures Mine(InsertByTime(events, e), id) ==
      if Counts(e) && e.userId == id then InsertByTime(Mine(events, id), e) else Mine(events, id)
  {
    if events == [] {
      MineSnoc([], e, id);
    } else {
      var rest, last := events[..|events| - 1], events[|events| - 1];
      assert events == rest + [last];
      TimeOrderSnoc(rest, last);
      MineSnoc(rest, last, id);
      if StringLess(e.time, last.time) {
        MineOfInsert(rest, e, id);
        MineSnoc(InsertByTime(rest, e), last, id);
        if Counts(last) && last.userId == id {
          InsertBefore(Mine(rest, id), last, e);
        }
      } else {
        MineSnoc(events, e, id);
        MineAreEvents(events, id);
        InsertLast(events, Mine(events, id), last, e);
      }
    }
  }

  lemma InsertBefore(mine: seq<DayEvent>, last: DayEvent, e: DayEvent)
    requires StringLess(e.time, last.time)
    ensures InsertByTime(mine + [last], e) == InsertByTime(mine, e) + [last]
  {
    assert (mine + [last])[..|mine|] == mine;
  }

  lemma {:induction false} MineAreEvents(events: seq<DayEvent>, id: int)
    ensures forall x :: x in Mine(events, id) ==> x in events
  {
    if events != [] {
      MineAreEvents(events[..|events| - 1], id);
    }
  }

  lemma InsertLast(events: seq<DayEvent>, mine: seq<DayEvent>, last: DayEvent, e: DayEvent)
    requires InTimeOrder(events) && events != [] && last == events[|events| - 1] && !StringLess(e.time, last.time)
    requires forall x :: x in mine ==> x in events
    ensures InsertByTime(mine, e) == mine + [e]
  {
    if mine != [] {
      var x := mine[|mine| - 1];
      assert x in mine;
      var i :| 0 <= i < |events| && events[i] == x;
      assert !StringLess(last.time, x.time) by {
        StringLessIsTotal(x.time, x.time);
      }
      ChainOf(e.time, last.time, x.time);
    }
  }

  lemma MineStep(sorted: seq<DayEvent>, m: seq<DayEvent>, e: DayEvent, id: int, next: seq<DayEvent>)
    requires InTimeOrder(sorted) && Mine(sorted, id) == ByTime(m)
    requires next == if Counts(e) && e.userId == id then m + [e] else m
    ensures Mine(InsertByTime(sorted, e), id) == ByTime(next)
  {
    MineOfInsert(sorted, e, id);
    ByTimeSnoc(m, e);
  }

  lemma {:induction false} MineOfByTime(events: seq<DayEvent>, id: int, sorted: seq<DayEvent>, mine: seq<DayEvent>)
    requires sorted == ByTime(events) && mine == Mine(events, id)
    ensures Mine(sorted, id) == ByTime(mine)
    decreases |events|
  {
    if events != [] {
      var rest, e := events[..|events| - 1], events[|events| - 1];
      MineOfByTime(rest, id, ByTime(rest), Mine(rest, id));
      ByTimeOrders(rest);
      MineStep(ByTime(rest), Mine(rest, id), e, id, mine);
    }
  }

  lemma ByTimeSnoc(events: seq<DayEvent>, e: DayEvent)
    ensures ByTime(events + [e]) == InsertByTime(ByTime(events), e)
  {
    assert (events + [e])[..|events|] == events;
  }

  /** Whether the view of this user shows what the engine has. */
  ghost predicate ViewAgrees(backend: Backend, w: World, date: (int, int, int), time: Row -> string,
                             name: Row -> string, id: int)
  {
    var mine := Mine(LoadEvents(backend, w.log, date, time, name), id);
    mine != [] && Summary(id, mine).presence == StateOf(w.states, OfUser(id)).presence
  }

  /** If a user's last toggle was on the date shown, the view shows the presence that the engine has: with
      day files always, and with a database exactly if the latest of the user's rows of that date, the one
      stored last among equal times, is of the kind of the row stored last. */
  lemma ViewShowsPresence(backend: Backend, w: World, date: (int, int, int), time: Row -> string,
                          name: Row -> string, id: int)
    requires id > 0 && PresenceAgrees(w, id)
    requires var ts := TogglesOf(w.log, id); ts != [] && ts[|ts| - 1].stamp.Date() == date
    ensures var mine := Mine(DayOf(w.log, date, time, name), id);
            && mine != []
            && (ViewAgrees(backend, w, date, time, name, id) <==>
                  backend == Csv || Latest(mine).kind == mine[|mine| - 1].kind)
  {
    var day := DayOf(w.log, date, time, name);
    MineAreToggles(w.log, date, time, name, id);
    var mine := Mine(day, id);
    if backend == Db {
      MineOfByTime(day, id, ByTime(day), mine);
      LastByTime(mine);
      MineCount(day, id);
      LatestMeaning(mine);
    }
  }

  lemma {:induction false} MineCount(events: seq<DayEvent>, id: int)
    ensures forall x :: x in Mine(events, id) ==> Counts(x) && x.userId == id
  {
    if events != [] {
      MineCount(events[..|events| - 1], id);
    }
  }

  /** In particular if the user's own rows of that date were stored in the order of time. */
  lemma OrderedRowsShowPresence(w: World, date: (int, int, int), time: Row -> string, name: Row -> string, id: int)
    requires id > 0 && PresenceAgrees(w, id)
    requires var ts := TogglesOf(w.log, id); ts != [] && ts[|ts| - 1].stamp.Date() == date
    requires InTimeOrder(Mine(DayOf(w.log, date, time, name), id))
    ensures ViewAgrees(Db, w, date, time, name, id)
  {
    ViewShowsPresence(Db, w, date, time, name, id);
    var mine := Mine(DayOf(w.log, date, time, name), id);
    LastByTime(mine);
    ByTimeIsIdle(mine);
  }

  // ---- late rows at work ----

  function Two(n: int): string {
    if 0 <= n < 10 then "0" + PrintNat(n) else if n >= 0 then PrintNat(n) else ""
  }

  function Year(n: int): string {
    if n >= 0 then PrintNat(n) else ""
  }

  /** YYYY-MM-DD HH:MM:SS */
  function TimeText(s: Stamp): string {
    Year(s.year) + "-" + Two(s.month) + "-" + Two(s.day) + " "
    + (Two(s.hour) + ":" + Two(s.minute) + ":" + Two(s.second))
  }

  /** How the time of a row is shown. */
  function StampText(r: Row): string {
    TimeText(r.stamp)
  }

  lemma {:induction false} SamePrefix(p: string, a: string, b: string)
    ensures StringLess(p + a, p + b) == StringLess(a, b)
  {
    if p == "" {
      assert p + a == a && p + b == b;
    } else {
      SamePrefix(p[1..], a, b);
      assert (p + a)[1..] == p[1..] + a && (p + b)[1..] == p[1..] + b;
    }
  }

  lemma TenBeforeEleven(s: Stamp, t: Stamp)
    requires s.Date() == t.Date() && s.hour == 10 && t.hour == 11
    ensures StringLess(TimeText(s), TimeText(t))
  {
    var p := Year(s.year) + "-" + Two(s.month) + "-" + Two(s.day) + " ";
    var a := Two(s.hour) + ":" + Two(s.minute) + ":" + Two(s.second);
    var b := Two(t.hour) + ":" + Two(t.minute) + ":" + Two(t.second);
    SamePrefix(p, a, b);
    assert PrintNat(1) == ['1'] && PrintNat(10) == PrintNat(1) + ['0'] && PrintNat(11) == PrintNat(1) + ['1'];
    assert a[0] == b[0] == '1' && a[1] == '0' && b[1] == '1';
    assert a[1..][0] == '0' && b[1..][0] == '1';
  }

  lemma MineOfTwo(x: DayEvent, y: DayEvent, id: int)
    requires Counts(x) && Counts(y) && x.userId == y.userId == id
    ensures Mine([x, y], id) == [x, y]
  {
    MineSnoc([], x, id);
    MineSnoc([x], y, id);
    assert [] + [x] == [x] && [x] + [y] == [x, y];
  }

  lemma DayOfTwo(a: Row, d: Row, name: Row -> string)
    requires a.stamp.Date() == d.stamp.Date()
    ensures DayOf([a, d], a.stamp.Date(), StampText, name) == [EventOf(a, StampText, name), EventOf(d, StampText, name)]
  {
    assert [a, d][..1] == [a] && [a][..0] == [];
    assert DayOf([a], a.stamp.Date(), StampText, name) == [EventOf(a, StampText, name)];
  }

  lemma LatestOfTwo(x: DayEvent, y: DayEvent)
    requires StringLess(y.time, x.time)
    ensures Latest([x, y]) == x
  {
    assert [x, y][..1] == [x] && Latest([x]) == x;
  }

  /** Of an arrival at 11:00 and a departure at 10:00, stored in this order, the arrival is the latest. */
  lemma LateDeparture(log: seq<Row>, a: Row, d: Row, name: Row -> string)
    requires log == [a, d] && a.kind == Arrival && d.kind == Departure && a.userId == d.userId > 0
    requires a.stamp.Date() == d.stamp.Date() && a.stamp.hour == 11 && d.stamp.hour == 10
    ensures var mine := Mine(DayOf(log, a.stamp.Date(), StampText, name), a.userId);
            mine == [EventOf(a, StampText, name), EventOf(d, StampText, name)] && Latest(mine) == mine[0]
  {
    var x, y := EventOf(a, StampText, name), EventOf(d, StampText, name);
    DayOfTwo(a, d, name);
    MineOfTwo(x, y, a.userId);
    TenBeforeEleven(d.stamp, a.stamp);
    LatestOfTwo(x, y);
  }

  lemma LateRowsStored(card: string, a: seq<byte>, b: seq<byte>, now: Stamp, r: Reading, q: Reading)
    requires a != [] && b != [] && r == FifoDrain.AccessAt(card, 2, a, 11) && q == FifoDrain.AccessAt(card, 1, b, 10)
    ensures var env, ok := FifoDrain.OneUserDb(card), Faults(false, false, false);
            var w := Handle(env, Handle(env, EMPTY, r, now, ok).w, q, now, ok).w;
            && w.log == [Row(r.stamp.value, Arrival, card, 7, 2, a), Row(q.stamp.value, Departure, card, 7, 1, b)]
            && PresenceAgrees(w, 7) && StateOf(w.states, OfUser(7)).presence == Absent
  {
    var env, ok := FifoDrain.OneUserDb(card), Faults(false, false, false);
    var first := Handle(env, EMPTY, r, now, ok).w;
    var w := Handle(env, first, q, now, ok).w;
    var x := Row(r.stamp.value, Arrival, card, 7, 2, a);
    assert first.log == [x] && StateOf(first.states, OfUser(7)) == State(Present, Some(r.stamp.value.Seconds()));
    assert r.stamp.value.Seconds() == q.stamp.value.Seconds() + 3600;
    assert w.log == [x, Row(q.stamp.value, Departure, card, 7, 1, b)];
    assert EMPTY.log == [] && TogglesOf([], 7) == [];
    HandleKeepsAgreement(env, EMPTY, r, now, ok, 7, Handle(env, EMPTY, r, now, ok));
    HandleKeepsAgreement(env, first, q, now, ok, 7, Handle(env, first, q, now, ok));
  }

  lemma LateRowsShown(w: World, x: Row, y: Row, name: Row -> string)
    requires w.log == [x, y] && x.kind == Arrival && y.kind == Departure && x.userId == y.userId == 7
    requires x.stamp.Date() == y.stamp.Date() == (2026, 9, 1) && x.stamp.hour == 11 && y.stamp.hour == 10
    requires PresenceAgrees(w, 7)
    ensures !ViewAgrees(Db, w, (2026, 9, 1), StampText, name, 7)
  {
    TogglesSnoc([x], y, 7);
    assert [x] + [y] == w.log;
    LateDeparture(w.log, x, y, name);
    ViewShowsPresence(Db, w, (2026, 9, 1), StampText, name, 7);
  }

  lemma LateRowsRun(card: string, a: seq<byte>, b: seq<byte>, now: Stamp, name: Row -> string)
    requires a != [] && b != []
    ensures var env, ok := FifoDrain.OneUserDb(card), Faults(false, false, false);
            var first := Handle(env, EMPTY, FifoDrain.AccessAt(card, 2, a, 11), now, ok).w;
            var w := Handle(env, first, FifoDrain.AccessAt(card, 1, b, 10), now, ok).w;
            && PresenceAgrees(w, 7) && StateOf(w.states, OfUser(7)).presence == Absent
            && !ViewAgrees(Db, w, (2026, 9, 1), StampText, name, 7)
  {
    var env, ok := FifoDrain.OneUserDb(card), Faults(false, false, false);
    var r, q := FifoDrain.AccessAt(card, 2, a, 11), FifoDrain.AccessAt(card, 1, b, 10);
    LateRowsStored(card, a, b, now, r, q);
    var w := Handle(env, Handle(env, EMPTY, r, now, ok).w, q, now, ok).w;
    LateRowsShown(w, w.log[0], w.log[1], name);
  }

  /** A run that ends so: the user's card at 11:00 on node 2, then a frame of 10:00 from the queue of node 1.
      The engine has the user absent, the view of the database shows them present. */
  lemma LateRowsAtWork(now: Stamp, name: Row -> string)
    ensures var card, ok := FormatCardId(CardId(1, 2)), Faults(false, false, false);
            var a, b := FifoDrain.AccessFrame(2, 9, 11), FifoDrain.AccessFrame(1, 9, 10);
            var env := FifoDrain.OneUserDb(card);
            var first := Handle(env, EMPTY, FifoDrain.ReadingOf(2, a), now, ok).w;
            var w := Handle(env, first, FifoDrain.ReadingOf(1, b), now, ok).w;
            && ValidFrame(a) && ValidFrame(b) && PresenceAgrees(w, 7)
            && StateOf(w.states, OfUser(7)).presence == Absent
            && !ViewAgrees(Db, w, (2026, 9, 1), StampText, name, 7)
  {
    FifoDrain.AccessFrameDecodes(2, 9, 11);
    FifoDrain.AccessFrameDecodes(1, 9, 10);
    var a, b := FifoDrain.AccessFrame(2, 9, 11), FifoDrain.AccessFrame(1, 9, 10);
    LateRowsRun(FormatCardId(CardId(1, 2)), a, b, now, name);
  }
}
