/** Draining event queues with a crash possible between any two steps: read the oldest event, look it
    up, append it, change presence, save presence, remove it. */
module FifoDrain {
  import opened Bytes
  import opened Wrappers
  import opened Devices
  import opened Events
  import opened Attendance
  import opened Framing
  import opened CardText

  /** Where the worker stands with the event it holds. */
  datatype Step =
    | Idle
    | Holding(node: byte, frame: seq<byte>)
    | Recorded(node: byte, frame: seq<byte>, key: Key, next: State)
    | Updated(node: byte, frame: seq<byte>)
    | Stored(node: byte, frame: seq<byte>)

  datatype System = System(
    fifos: map<byte, Fifo>,
    w: World,
    at: Step,
    toggled: multiset<(byte, seq<byte>)>)  // every change of presence ever made, by its event

  datatype Action =
    | Arrive(node: byte, frame: seq<byte>)
    | Fetch(node: byte)
    | Record(now: Stamp, lookupFails: bool, appendFails: bool)
    | Update
    | Persist(fails: bool)
    | Remove(executed: bool)
    | Crash

  /** The event a frame stands for. */
  function ReadingOf(node: byte, frame: seq<byte>): Reading {
    var e := DecodeEvent(frame);
    Reading(e.code == Some(NORMAL_ACCESS) && e.card != "", e.card, node, frame, e.stamp)
  }

  function RecordStep(env: Env, s: System, now: Stamp, lookupFails: bool, appendFails: bool): System
    requires s.at.Holding?
  {
    RecordReading(env, s, ReadingOf(s.at.node, s.at.frame), now, lookupFails, appendFails)
  }

  function RecordReading(env: Env, s: System, r: Reading, now: Stamp, lookupFails: bool, appendFails: bool): System
    requires s.at.Holding?
  {
    var at := At(r, now);
    if Lookup(env, s.w.log, r, at, lookupFails) then s.(at := Stored(s.at.node, s.at.frame))
    else if !r.access then
      if appendFails then s.(at := Idle)
      else s.(w := s.w.(log := Append(env, s.w.log, RowFor(env, FRESH, r, at))), at := Stored(s.at.node, s.at.frame))
    else
      var k := KeyOf(env, r.card);
      var st := StateOf(s.w.states, k);
      var touched := s.w.(states := Touch(s.w.states, k));
      if appendFails then s.(w := touched, at := Idle)
      else s.(w := touched.(log := Append(env, s.w.log, RowFor(env, st, r, at))),
              at := Recorded(s.at.node, s.at.frame, k, NextState(env, st, r, at)))
  }

  function UpdateStep(s: System): System
    requires s.at.Recorded?
  {
    var event := (s.at.node, s.at.frame);
    s.(w := s.w.(states := s.w.states[s.at.key := s.at.next]),
       at := Updated(s.at.node, s.at.frame),
       toggled := if StateOf(s.w.states, s.at.key).presence != s.at.next.presence then s.toggled + multiset{event} else s.toggled)
  }

  function PersistStep(s: System, fails: bool): System
    requires s.at.Updated?
  {
    s.(w := if fails then s.w else s.w.(saved := s.w.states), at := Stored(s.at.node, s.at.frame))
  }

  /** One step; an action that is not possible leaves everything as it is. */
  function Act(env: Env, s: System, a: Action): System {
    match a
    case Arrive(n, f) =>
      if n in s.fifos && f != [] then s.(fifos := s.fifos[n := s.fifos[n].(queued := s.fifos[n].queued + [f])]) else s
    case Fetch(n) =>
      if s.at.Idle? && n in s.fifos && !s.fifos[n].Empty() then
        s.(at := Holding(n, s.fifos[n].queued[s.fifos[n].removed])) else s
    case Record(now, l, x) => if s.at.Holding? then RecordStep(env, s, now, l, x) else s
    case Update => if s.at.Recorded? then UpdateStep(s) else s
    case Persist(fails) => if s.at.Updated? then PersistStep(s, fails) else s
    case Remove(executed) =>
      if s.at.Stored? && s.at.node in s.fifos then
        s.(fifos := if executed then s.fifos[s.at.node := s.fifos[s.at.node].Pop()] else s.fifos, at := Idle) else s
    case Crash => s.(w := s.w.(states := s.w.saved), at := Idle)
  }

  function Run(env: Env, s: System, actions: seq<Action>): System {
    if actions == [] then s else Act(env, Run(env, s, actions[..|actions| - 1]), actions[|actions| - 1])
  }

  /** Queues that hold some events already, an empty log, and nothing in hand. */
  ghost predicate Initial(s: System) {
    && s.w == EMPTY && s.at == Idle && s.toggled == multiset{}
    && forall n :: n in s.fifos ==> s.fifos[n].removed == 0 && [] !in s.fifos[n].queued
  }

  lemma StepsOfReading(env: Env, s: System, r: Reading, now: Stamp, f: Faults)
    requires s.at.Holding?
    ensures var o := Handle(env, s.w, r, now, f);
            var t := Act(env, Act(env, RecordReading(env, s, r, now, f.lookup, f.append), Update), Persist(f.save));
            t.w == o.w && t.fifos == s.fifos
            && t.at == if o.stored then Stored(s.at.node, s.at.frame) else Idle
  {
    var k, s1 := KeyOf(env, r.card), RecordReading(env, s, r, now, f.lookup, f.append);
    if s1.at.Recorded? {
      assert Touch(s.w.states, k)[k := s1.at.next] == s.w.states[k := s1.at.next];
    }
  }

  /** The steps of one event that is not interrupted are the handling of that event. */
  lemma StepsAreHandle(env: Env, s: System, now: Stamp, f: Faults)
    requires s.at.Holding?
    ensures var o := Handle(env, s.w, ReadingOf(s.at.node, s.at.frame), now, f);
            var t := Act(env, Act(env, Act(env, s, Record(now, f.lookup, f.append)), Update), Persist(f.save));
            t.w == o.w && t.fifos == s.fifos
            && t.at == if o.stored then Stored(s.at.node, s.at.frame) else Idle
  {
    StepsOfReading(env, s, ReadingOf(s.at.node, s.at.frame), now, f);
  }

  // ---- nothing is lost ----

  ghost predicate InHand(s: System) {
    s.at != Idle ==>
      && s.at.node in s.fifos && !s.fifos[s.at.node].Empty()
      && s.fifos[s.at.node].queued[s.fifos[s.at.node].removed] == s.at.frame
      && (!s.at.Holding? ==> Logged(s.w.log, s.at.node, s.at.frame))
  }

  ghost predicate NothingLost(s: System) {
    && InHand(s)
    && (forall n :: n in s.fifos ==> s.fifos[n].WellFormed() && [] !in s.fifos[n].queued)
    && forall n, i :: n in s.fifos && 0 <= i < s.fifos[n].removed ==> Logged(s.w.log, n, s.fifos[n].queued[i])
  }

  lemma LogGrows(env: Env, s: System, a: Action, n: byte, f: seq<byte>)
    requires Logged(s.w.log, n, f)
    ensures Logged(Act(env, s, a).w.log, n, f)
  {
    var i :| 0 <= i < |s.w.log| && s.w.log[i].node == n && s.w.log[i].raw == f;
    assert s.w.log <= Act(env, s, a).w.log;
    assert Act(env, s, a).w.log[i] == s.w.log[i];
  }

  lemma RecordLogs(env: Env, s: System, now: Stamp, l: bool, x: bool)
    requires s.at.Holding? && s.at.frame != []
    ensures var t := RecordStep(env, s, now, l, x);
            && t.fifos == s.fifos && t.toggled == s.toggled
            && (t.at != Idle ==> t.at.node == s.at.node && t.at.frame == s.at.frame && !t.at.Holding?
                                 && Logged(t.w.log, s.at.node, s.at.frame))
  {
    var r, t := ReadingOf(s.at.node, s.at.frame), RecordStep(env, s, now, l, x);
    if t.at != Idle && !Lookup(env, s.w.log, r, At(r, now), l) {
      var st := if r.access then StateOf(s.w.states, KeyOf(env, r.card)) else FRESH;
      var row := RowFor(env, st, r, At(r, now));
      assert t.w.log == Append(env, s.w.log, row);
      assert t.w.log == s.w.log + [row] ==> t.w.log[|s.w.log|] == row;
    }
  }

  lemma StepLosesNothing(env: Env, s: System, a: Action)
    requires NothingLost(s)
    ensures NothingLost(Act(env, s, a))
  {
    var t := Act(env, s, a);
    if a.Record? && s.at.Holding? {
      assert s.at.frame in s.fifos[s.at.node].queued;
      RecordLogs(env, s, a.now, a.lookupFails, a.appendFails);
    }
    forall n, i | n in t.fifos && 0 <= i < t.fifos[n].removed
      ensures Logged(t.w.log, n, t.fifos[n].queued[i])
    {
      if i < s.fifos[n].removed {
        assert Logged(s.w.log, n, s.fifos[n].queued[i]);
      }
      LogGrows(env, s, a, n, t.fifos[n].queued[i]);
    }
    if !s.at.Idle? && !s.at.Holding? {
      LogGrows(env, s, a, s.at.node, s.at.frame);
    }
  }

  /** Whatever fails and whenever the server crashes, an event that a controller queued is still in
      its queue or in the log. */
  lemma {:induction false} NoEventIsLost(env: Env, s: System, actions: seq<Action>)
    requires Initial(s)
    ensures NothingLost(Run(env, s, actions))
    ensures var t := Run(env, s, actions);
            forall n, i :: n in t.fifos && 0 <= i < |t.fifos[n].queued| ==>
              i >= t.fifos[n].removed || Logged(t.w.log, n, t.fifos[n].queued[i])
  {
    if actions != [] {
      NoEventIsLost(env, s, actions[..|actions| - 1]);
      StepLosesNothing(env, Run(env, s, actions[..|actions| - 1]), actions[|actions| - 1]);
    }
  }

  // ---- nothing counts twice ----

  function StampOf(frame: seq<byte>): Option<Stamp> {
    DecodeEvent(frame).stamp
  }

  /** A database lookup does not fail; with day files, controllers send times that can be decoded. */
  predicate Reliable(env: Env, a: Action) {
    match a
    case Record(_, lookupFails, _) => env.backend == Db ==> !lookupFails
    case Arrive(_, frame) => env.backend == Csv ==> StampOf(frame).Some?
    case _ => true
  }

  ghost predicate NothingDoubled(env: Env, s: System) {
    && Unique(s.w.log) && Dated(s.w.log, StampOf)
    && (forall e :: s.toggled[e] <= 1)
    && (forall e :: e in s.toggled ==> Logged(s.w.log, e.0, e.1))
    && (s.at.Recorded? ==> (s.at.node, s.at.frame) !in s.toggled)
    && (env.backend == Csv ==> forall n, f :: n in s.fifos && f in s.fifos[n].queued ==> StampOf(f).Some?)
  }

  /** The lookup of a held event finds it if it is logged. */
  lemma HeldIsFound(env: Env, s: System, now: Stamp, lookupFails: bool)
    requires NothingLost(s) && NothingDoubled(env, s) && s.at.Holding?
    requires env.backend == Db ==> !lookupFails
    requires Logged(s.w.log, s.at.node, s.at.frame)
    ensures var r := ReadingOf(s.at.node, s.at.frame); Lookup(env, s.w.log, r, At(r, now), lookupFails)
  {
    var fifo := s.fifos[s.at.node];
    assert s.at.frame in fifo.queued;
    if env.backend == Csv {
      DatedIsFound(env, s.w.log, ReadingOf(s.at.node, s.at.frame), now, StampOf);
    }
  }

  lemma RecordDoublesNothing(env: Env, s: System, now: Stamp, l: bool, x: bool)
    requires NothingLost(s) && NothingDoubled(env, s) && s.at.Holding?
    requires env.backend == Db ==> !l
    ensures NothingDoubled(env, RecordStep(env, s, now, l, x))
  {
    var r, t := ReadingOf(s.at.node, s.at.frame), RecordStep(env, s, now, l, x);
    assert s.at.frame in s.fifos[s.at.node].queued;
    if Logged(s.w.log, s.at.node, s.at.frame) {
      HeldIsFound(env, s, now, l);
    } else {
      var f := Faults(l, x, true);
      UniqueUnlessStoredAgain(env, s.w, r, now, f, StampOf);
      HandleKeepsDates(env, s.w, r, now, f, StampOf);
      assert t.w.log == Handle(env, s.w, r, now, f).w.log;
      forall e | e in t.toggled
        ensures Logged(t.w.log, e.0, e.1)
      {
        LogGrows(env, s, Record(now, l, x), e.0, e.1);
      }
    }
  }

  lemma UpdateDoublesNothing(env: Env, s: System)
    requires NothingLost(s) && NothingDoubled(env, s) && s.at.Recorded?
    ensures NothingDoubled(env, UpdateStep(s))
  {
    var t, event := UpdateStep(s), (s.at.node, s.at.frame);
    forall e
      ensures t.toggled[e] <= 1
      ensures e in t.toggled ==> Logged(t.w.log, e.0, e.1)
    {
      assert s.toggled[e] <= 1 && (e == event ==> s.toggled[e] == 0);
    }
  }

  lemma ArriveDoublesNothing(env: Env, s: System, a: Action)
    requires NothingDoubled(env, s) && Reliable(env, a) && a.Arrive?
    ensures NothingDoubled(env, Act(env, s, a))
  {
    var t := Act(env, s, a);
    forall n, f | n in t.fifos && f in t.fifos[n].queued
      ensures f in s.fifos[n].queued || (n == a.node && f == a.frame)
    {
    }
  }

  lemma RemoveDoublesNothing(env: Env, s: System, a: Action)
    requires NothingDoubled(env, s) && a.Remove?
    ensures NothingDoubled(env, Act(env, s, a))
  {
    var t := Act(env, s, a);
    assert t.fifos.Keys == s.fifos.Keys && forall n :: n in s.fifos ==> t.fifos[n].queued == s.fifos[n].queued;
  }

  lemma StepDoublesNothing(env: Env, s: System, a: Action)
    requires NothingLost(s) && NothingDoubled(env, s) && Reliable(env, a)
    ensures NothingDoubled(env, Act(env, s, a))
  {
    match a
    case Record(now, l, x) =>
      if s.at.Holding? {
        RecordDoublesNothing(env, s, now, l, x);
      }
    case Update =>
      if s.at.Recorded? {
        UpdateDoublesNothing(env, s);
      }
    case Arrive(_, _) => ArriveDoublesNothing(env, s, a);
    case Remove(_) => RemoveDoublesNothing(env, s, a);
    case Fetch(_) =>
    case Persist(_) =>
    case Crash =>
  }

  ghost predicate InitiallyReliable(env: Env, s: System) {
    env.backend == Csv ==> forall n, f :: n in s.fifos && f in s.fifos[n].queued ==> StampOf(f).Some?
  }

  /** Under the same crashes, and if lookups are reliable, the log holds one row per event and an event
      changes presence at most once. */
  lemma {:induction false} NoEventCountsTwice(env: Env, s: System, actions: seq<Action>)
    requires Initial(s) && InitiallyReliable(env, s)
    requires forall i :: 0 <= i < |actions| ==> Reliable(env, actions[i])
    ensures NothingDoubled(env, Run(env, s, actions))
  {
    if actions != [] {
      var before := actions[..|actions| - 1];
      NoEventCountsTwice(env, s, before);
      NoEventIsLost(env, s, before);
      StepDoublesNothing(env, Run(env, s, before), actions[|actions| - 1]);
    }
  }

  // ---- frames whose time does not decode ----

  /** Readings of frames, at any time and under any faults. */
  ghost predicate FromFrames(inputs: seq<Input>) {
    forall i :: 0 <= i < |inputs| ==> inputs[i].r == ReadingOf(inputs[i].r.node, inputs[i].r.raw)
  }

  /** The same frame before and after midnight. */
  function AcrossMidnight(node: byte, frame: seq<byte>): seq<Input> {
    var r, ok := ReadingOf(node, frame), Faults(false, false, false);
    [Input(r, Stamp(2026, 9, 1, 23, 59, 59), ok), Input(r, Stamp(2026, 9, 2, 0, 0, 1), ok)]
  }

  lemma UndecodedIsStoredTwice(env: Env, node: byte, frame: seq<byte>)
    requires env.backend == Csv && frame != [] && StampOf(frame).None?
    ensures FromFrames(AcrossMidnight(node, frame))
    ensures !Once(Attendance.Run(env, EMPTY, AcrossMidnight(node, frame)).log, node, frame)
  {
    var inputs, r := AcrossMidnight(node, frame), ReadingOf(node, frame);
    var first := Handle(env, EMPTY, r, inputs[0].now, inputs[0].f).w;
    var second := Handle(env, first, r, inputs[1].now, inputs[1].f).w;
    assert Attendance.Run(env, EMPTY, []) == EMPTY;
    assert inputs[..1] == [inputs[0]] && inputs[..1][..0] == [];
    assert Attendance.Run(env, EMPTY, inputs[..1]) == first;
    assert Attendance.Run(env, EMPTY, inputs) == second;
    assert |first.log| == 1 && first.log[0].node == node && first.log[0].raw == frame;
    assert |second.log| == 2 && second.log[0] == first.log[0];
    assert second.log[1].node == node && second.log[1].raw == frame;
  }

  /** With day files, a frame is stored at most once under every clock exactly if its time decodes. */
  lemma SafeUnderEveryClock(env: Env, node: byte, frame: seq<byte>)
    requires env.backend == Csv && frame != []
    ensures StampOf(frame).Some? <==>
      forall inputs :: FromFrames(inputs) ==> Once(Attendance.Run(env, EMPTY, inputs).log, node, frame)
  {
    if StampOf(frame).Some? {
      forall inputs | FromFrames(inputs)
        ensures Once(Attendance.Run(env, EMPTY, inputs).log, node, frame)
      {
        DecodedIsStoredOnce(env, inputs, StampOf, node, frame);
      }
    } else {
      UndecodedIsStoredTwice(env, node, frame);
    }
  }

  /** The data of an access event as the controllers send it: card 1:2, on 2026-09-01 (or a month of 0),
      at a full hour. */
  function AccessData(node: byte, month: byte, hour: byte): seq<byte> {
    [node, 0, 0, hour, 2, 1, month, 26, 0, 0, 7, 0, 0, 0, 0, 0, 1, 0, 0, 0, 2, 0, 0, 0, 0]
  }

  function AccessFrame(node: byte, month: byte, hour: byte): seq<byte> {
    Frame(0, NORMAL_ACCESS, AccessData(node, month, hour))
  }

  lemma FrameBytes(cmd: byte, data: seq<byte>)
    requires |data| == 25
    ensures var f := Frame(0, cmd, data);
            && |f| == 31 && f[0] == START && f[3] == cmd && ValidFrame(f)
            && forall i :: 0 <= i < 25 ==> f[4 + i] == data[i]
  {
    FrameIsValid(0, cmd, data);
  }

  lemma DecodedBytes(f: seq<byte>, month: byte, hour: byte)
    requires |f| == 31 && f[0] == START && f[3] == NORMAL_ACCESS && month <= 12 && hour <= 23
    requires f[5] == f[6] == 0 && f[7] == hour && f[9] == 1 && f[10] == month && f[11] == 26
    requires f[19] == f[23] == 0 && f[20] == 1 && f[24] == 2
    ensures DecodeEvent(f).code == Some(NORMAL_ACCESS) && DecodeEvent(f).card == FormatCardId(CardId(1, 2))
    ensures DecodeEvent(f).stamp == if month == 0 then None else Some(Stamp(2026, month, 1, hour, 0, 0))
  {
  }

  lemma AccessFrameDecodes(node: byte, month: byte, hour: byte)
    requires month <= 12 && hour <= 23
    ensures var frame := AccessFrame(node, month, hour);
            && ValidFrame(frame) && |frame| >= EVENT_LENGTH
            && ReadingOf(node, frame) == Reading(true, FormatCardId(CardId(1, 2)), node, frame,
                 if month == 0 then None else Some(Stamp(2026, month, 1, hour, 0, 0)))
  {
    var frame, data := AccessFrame(node, month, hour), AccessData(node, month, hour);
    FrameBytes(NORMAL_ACCESS, data);
    assert frame[5] == data[1] && frame[6] == data[2] && frame[7] == data[3] && frame[9] == data[5];
    assert frame[10] == data[6] && frame[11] == data[7] && frame[19] == data[15] && frame[20] == data[16];
    assert frame[23] == data[19] && frame[24] == data[20];
    DecodedBytes(frame, month, hour);
    CardRoundTrip(CardId(1, 2));
  }

  /** A frame that a controller can send and that is stored twice: month 0, read around midnight. */
  lemma UndecodedAcrossMidnight(env: Env)
    requires env.backend == Csv
    ensures var frame := AccessFrame(1, 0, 10);
            && ValidFrame(frame) && |frame| >= EVENT_LENGTH
            && !Once(Attendance.Run(env, EMPTY, AcrossMidnight(1, frame)).log, 1, frame)
  {
    AccessFrameDecodes(1, 0, 10);
    UndecodedIsStoredTwice(env, 1, AccessFrame(1, 0, 10));
  }

  // ---- a lost lookup at work ----

  /** One user with one card, and a database. */
  function OneUserDb(card: string): Env {
    Env(Db, map[card := Owner(7, true)], 5)
  }

  function AccessAt(card: string, node: byte, frame: seq<byte>, hour: byte): Reading {
    Reading(true, card, node, frame, Some(Stamp(2026, 9, 1, hour, 0, 0)))
  }

  /** An access at 10:00, one at 11:00 on another node, and the first again while the database does not
      answer: the log has the user absent, the table in memory present. */
  lemma LostLookupSteps(card: string, a: seq<byte>, b: seq<byte>, now: Stamp)
    requires a != [] && b != []
    ensures var env, ok := OneUserDb(card), Faults(false, false, false);
            var first := Handle(env, EMPTY, AccessAt(card, 1, a, 10), now, ok).w;
            var second := Handle(env, first, AccessAt(card, 2, b, 11), now, ok).w;
            var third := Handle(env, second, AccessAt(card, 1, a, 10), now, Faults(true, false, false)).w;
            && PresenceAgrees(second, 7) && |second.log| == 2 && third.log == second.log
            && PresenceIn(third.log, 7) == Absent && StateOf(third.states, OfUser(7)).presence == Present
  {
    var env, ok := OneUserDb(card), Faults(false, false, false);
    var r, q := AccessAt(card, 1, a, 10), AccessAt(card, 2, b, 11);
    var first := Handle(env, EMPTY, r, now, ok).w;
    var second := Handle(env, first, q, now, ok).w;
    var row := Row(r.stamp.value, Arrival, card, 7, 1, a);
    assert first.log == [row] && StateOf(first.states, OfUser(7)) == State(Present, Some(r.stamp.value.Seconds()));
    assert q.stamp.value.Seconds() == r.stamp.value.Seconds() + 3600;
    assert second.log == [row, Row(q.stamp.value, Departure, card, 7, 2, b)];
    assert EMPTY.log == [] && TogglesOf([], 7) == [];
    HandleKeepsAgreement(env, EMPTY, r, now, ok, 7, Handle(env, EMPTY, r, now, ok));
    HandleKeepsAgreement(env, first, q, now, ok, 7, Handle(env, first, q, now, ok));
    assert second.log[0] == row;
    assert Logged(second.log, 1, a);
  }

  /** The same with frames that controllers can send. */
  lemma LostLookupAtWork(now: Stamp)
    ensures var card, a, b := FormatCardId(CardId(1, 2)), AccessFrame(1, 9, 10), AccessFrame(2, 9, 11);
            var env, ok := OneUserDb(card), Faults(false, false, false);
            var second := Handle(env, Handle(env, EMPTY, ReadingOf(1, a), now, ok).w, ReadingOf(2, b), now, ok).w;
            var third := Handle(env, second, ReadingOf(1, a), now, Faults(true, false, false)).w;
            && ValidFrame(a) && |a| >= EVENT_LENGTH && ValidFrame(b) && |b| >= EVENT_LENGTH
            && PresenceAgrees(second, 7) && third.log == second.log
            && PresenceIn(third.log, 7) == Absent && StateOf(third.states, OfUser(7)).presence == Present
  {
    AccessFrameDecodes(1, 9, 10);
    AccessFrameDecodes(2, 9, 11);
    LostLookupSteps(FormatCardId(CardId(1, 2)), AccessFrame(1, 9, 10), AccessFrame(2, 9, 11), now);
  }

  // ---- presence and crashes ----

  /** The saved presence of a user is the one in memory. */
  ghost predicate Saved(s: System, id: int) {
    StateOf(s.w.saved, OfUser(id)).presence == StateOf(s.w.states, OfUser(id)).presence
  }

  /** The presence table once the event in hand is carried through. */
  function Intended(s: System): map<Key, State> {
    if s.at.Recorded? then s.w.states[s.at.key := s.at.next] else s.w.states
  }

  /** It agrees with the log. */
  ghost predicate Settled(s: System, id: int) {
    PresenceAgrees(World(s.w.log, Intended(s), s.w.saved), id)
  }

  /** The saved presence of the user is the intended one. */
  ghost predicate Secured(s: System, id: int) {
    StateOf(s.w.saved, OfUser(id)).presence == StateOf(Intended(s), OfUser(id)).presence
  }

  /** A crash between the append of an event and the save of its presence loses the toggle of that very
      event, if it was one, and nothing else: the log has it and the table does not. */
  lemma CrashLosesToggle(env: Env, s: System, now: Stamp, l: bool, x: bool, id: int)
    requires s.at.Holding? && PresenceAgrees(s.w, id) && Saved(s, id)
    requires var r := ReadingOf(s.at.node, s.at.frame); !LostLookup(env, s.w, r, Faults(l, x, true))
    ensures var r := ReadingOf(s.at.node, s.at.frame);
            var recorded := Act(env, s, Record(now, l, x));
            var updated := Act(env, recorded, Update);
            var lost := Toggles(env, s.w, r, now, Faults(l, x, true), OfUser(id));
            recorded.at.Recorded? ==>
              && (PresenceAgrees(Act(env, recorded, Crash).w, id) <==> !lost)
              && (PresenceAgrees(Act(env, updated, Crash).w, id) <==> !lost)
              && StateOf(Act(env, updated, Crash).w.states, OfUser(id)).presence == StateOf(s.w.states, OfUser(id)).presence
  {
    var r := ReadingOf(s.at.node, s.at.frame);
    CrashLosesReading(env, s, r, now, l, x, id);
    assert Act(env, s, Record(now, l, x)) == RecordReading(env, s, r, now, l, x);
  }

  lemma CrashLosesReading(env: Env, s: System, r: Reading, now: Stamp, l: bool, x: bool, id: int)
    requires s.at.Holding? && PresenceAgrees(s.w, id) && Saved(s, id)
    requires !LostLookup(env, s.w, r, Faults(l, x, true))
    ensures var recorded := RecordReading(env, s, r, now, l, x);
            var lost := Toggles(env, s.w, r, now, Faults(l, x, true), OfUser(id));
            recorded.at.Recorded? ==>
              && (PresenceAgrees(Act(env, recorded, Crash).w, id) <==> !lost)
              && (PresenceAgrees(Act(env, Act(env, recorded, Update), Crash).w, id) <==> !lost)
              && Act(env, Act(env, recorded, Update), Crash).w.saved == s.w.saved
  {
    var f, recorded := Faults(l, x, true), RecordReading(env, s, r, now, l, x);
    if recorded.at.Recorded? {
      var o := Handle(env, s.w, r, now, f);
      assert o.w.log == recorded.w.log;
      HandleKeepsAgreement(env, s.w, r, now, f, id, o);
      HandleEffect(env, s.w, r, now, f, OfUser(id));
    }
  }

  /** No lookup is lost, and a crash finds the intended presence of the user saved; saves may fail. */
  ghost predicate Calm(env: Env, s: System, a: Action, id: int) {
    match a
    case Crash => Secured(s, id)
    case Record(_, l, x) => s.at.Holding? ==> !LostLookup(env, s.w, ReadingOf(s.at.node, s.at.frame), Faults(l, x, true))
    case _ => true
  }

  lemma AgreesAlike(v: World, w: World, id: int)
    requires PresenceAgrees(v, id) && v.log == w.log && v.states == w.states
    ensures PresenceAgrees(w, id)
  {
  }

  lemma RecordSettles(env: Env, s: System, r: Reading, now: Stamp, l: bool, x: bool, id: int, t: System)
    requires s.at.Holding? && PresenceAgrees(s.w, id) && t == RecordReading(env, s, r, now, l, x)
    requires !LostLookup(env, s.w, r, Faults(l, x, true))
    ensures Settled(t, id)
  {
    var f := Faults(l, x, true);
    var o := Handle(env, s.w, r, now, f);
    HandleKeepsAgreement(env, s.w, r, now, f, id, o);
    if t.at.Recorded? {
      assert Touch(s.w.states, t.at.key)[t.at.key := t.at.next] == s.w.states[t.at.key := t.at.next];
    }
    assert Intended(t) == o.w.states && t.w.log == o.w.log;
    AgreesAlike(o.w, World(t.w.log, Intended(t), t.w.saved), id);
  }

  /** A step that is no crash keeps agreement if it loses no lookup; a crash keeps it exactly if the
      intended presence is saved. */
  lemma CalmStep(env: Env, s: System, a: Action, id: int)
    requires Settled(s, id)
    ensures Calm(env, s, a, id) ==> Settled(Act(env, s, a), id)
    ensures a.Crash? && Settled(Act(env, s, a), id) ==> Calm(env, s, a, id)
  {
    if a.Record? && s.at.Holding? && Calm(env, s, a, id) {
      RecordSettles(env, s, ReadingOf(s.at.node, s.at.frame), a.now, a.lookupFails, a.appendFails, id, Act(env, s, a));
    }
  }

  ghost predicate AllCalm(env: Env, s: System, actions: seq<Action>, id: int) {
    forall i :: 0 <= i < |actions| ==> Calm(env, Run(env, s, actions[..i]), actions[i], id)
  }

  /** Crashes that find the intended presence saved cost no presence: over every such run, whichever saves
      and appends fail, it agrees with the log once the event in hand is carried through. */
  lemma {:induction false} PresenceSurvivesCrashes(env: Env, s: System, actions: seq<Action>, id: int)
    requires Initial(s) && AllCalm(env, s, actions, id)
    ensures Settled(Run(env, s, actions), id)
  {
    if actions == [] {
      assert TogglesOf([], id) == [];
    } else {
      var before := actions[..|actions| - 1];
      assert forall i :: 0 <= i < |before| ==> before[..i] == actions[..i] && before[i] == actions[i];
      assert AllCalm(env, s, before, id);
      PresenceSurvivesCrashes(env, s, before, id);
      CalmStep(env, Run(env, s, before), actions[|actions| - 1], id);
    }
  }

  // ---- a database keeps frames apart by itself ----

  /** No controller has number 0. */
  ghost predicate Numbered(s: System) {
    && 0 !in s.fifos
    && (s.at != Idle ==> s.at.node != 0 && s.at.frame != [])
    && forall n :: n in s.fifos ==> [] !in s.fifos[n].queued
  }

  lemma KeyedAppendKeepsUnique(env: Env, log: seq<Row>, row: Row)
    requires env.backend == Db && Unique(log) && row.node > 0 && row.raw != []
    ensures Unique(Append(env, log, row))
  {
  }

  lemma NumberedStep(env: Env, s: System, a: Action)
    requires env.backend == Db && Unique(s.w.log) && Numbered(s)
    ensures Unique(Act(env, s, a).w.log) && Numbered(Act(env, s, a))
  {
    if a.Record? && s.at.Holding? {
      var r := ReadingOf(s.at.node, s.at.frame);
      var st := if r.access then StateOf(s.w.states, KeyOf(env, r.card)) else FRESH;
      KeyedAppendKeepsUnique(env, s.w.log, RowFor(env, st, r, At(r, a.now)));
    } else if a.Fetch? && Act(env, s, a) != s {
      assert Act(env, s, a).at.frame in s.fifos[a.node].queued;
    }
  }

  /** Over every run, crashes and failing lookups included, a database holds one row per frame. */
  lemma {:induction false} DatabaseKeepsRowsUnique(env: Env, s: System, actions: seq<Action>)
    requires env.backend == Db && Initial(s) && 0 !in s.fifos
    ensures Unique(Run(env, s, actions).w.log) && Numbered(Run(env, s, actions))
  {
    if actions != [] {
      DatabaseKeepsRowsUnique(env, s, actions[..|actions| - 1]);
      NumberedStep(env, Run(env, s, actions[..|actions| - 1]), actions[|actions| - 1]);
    }
  }
}
