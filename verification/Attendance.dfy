/** What a controller event says. */
module Events {
  import opened Bytes
  import opened Wrappers
  import opened CardText
  import opened Framing

  /** A controller time: the fields of the 25H record, or the server's own clock. */
  datatype Stamp = Stamp(year: int, month: int, day: int, hour: int, minute: int, second: int) {
    /** The calendar date as it is printed, which names the file an event is stored in. */
    function Date(): (int, int, int) {
      (year, month, day)
    }

    /** Seconds since 1970-01-01, in local time. */
    function Seconds(): int {
      ((DaysFromCivil(year, month, day) * 24 + hour) * 60 + minute) * 60 + second
    }
  }

  function DaysFromCivil(year: int, month: int, day: int): int {
    var y := if month <= 2 then year - 1 else year;
    var era := y / 400;
    var yearOfEra := y - era * 400;
    var dayOfYear := (153 * (if month > 2 then month - 3 else month + 9) + 2) / 5 + day - 1;
    era * 146097 + yearOfEra * 365 + yearOfEra / 4 - yearOfEra / 100 + dayOfYear - 719468
  }

  const NORMAL_ACCESS: byte := 0x0B
  const INVALID_CARD: byte := 0x03
  const EVENT_FRAME := 31

  /** A decoded event: whether it is a normal access, the card and the controller's time if any. */
  datatype Event = Event(code: Option<byte>, card: string, stamp: Option<Stamp>, userAddress: Option<nat>)

  function EventStamp(f: seq<byte>): Option<Stamp> {
    if |f| < 12 then None
    else if f[5] > 59 || f[6] > 59 || f[7] > 23 || !(1 <= f[9] <= 31) || !(1 <= f[10] <= 12) || f[11] > 99 then None
    else Some(Stamp(2000 + f[11] as int, f[10], f[9], f[7], f[6], f[5]))
  }

  function EventCard(f: seq<byte>): string
    requires |f| >= EVENT_FRAME
  {
    var c := CardId(Word(f[19], f[20]), Word(f[23], f[24]));
    if c == CardId(0, 0) || c == CardId(0xFFFF, 0xFFFF) then "" else FormatCardId(c)
  }

  function DecodeEvent(f: seq<byte>): Event {
    if |f| >= EVENT_FRAME && f[0] == START && (f[3] == NORMAL_ACCESS || f[3] == INVALID_CARD) then
      Event(Some(f[3]), EventCard(f), EventStamp(f), Some(Word(f[13], f[14])))
    else
      Event(if |f| >= 4 && NORMAL_ACCESS in f[2..|f| - 2] then Some(NORMAL_ACCESS) else None, "", None, None)
  }
}

/** Presence, debounce and the event log, as functions of what happens. */
module Attendance {
  import opened Bytes
  import opened Wrappers
  import opened Events

  datatype Presence = Absent | Present

  datatype Kind = Arrival | Departure | Accidental | UnknownCard | RawEvent

  /** Presence is kept per user, so that any of their cards toggles it; unknown cards have their own. */
  datatype Key = OfUser(id: int) | OfCard(card: string)

  datatype State = State(presence: Presence, last: Option<int>)

  const FRESH := State(Absent, None)

  datatype Owner = Owner(id: int, enabled: bool)

  datatype Row = Row(stamp: Stamp, kind: Kind, card: string, userId: int, node: byte, raw: seq<byte>)

  /** Day files, or a database with a unique key per controller frame. */
  datatype Backend = Csv | Db

  datatype Env = Env(backend: Backend, owners: map<string, Owner>, repeat: int)

  /** An event as it reaches the engine. */
  datatype Reading = Reading(access: bool, card: string, node: byte, raw: seq<byte>, stamp: Option<Stamp>)

  /** Which calls to the store fail. */
  datatype Faults = Faults(lookup: bool, append: bool, save: bool)

  /** The durable log and presence table, and the presence table in memory. */
  datatype World = World(log: seq<Row>, states: map<Key, State>, saved: map<Key, State>)

  function KeyOf(env: Env, card: string): Key {
    if card in env.owners then OfUser(env.owners[card].id) else OfCard(card)
  }

  function StateOf(states: map<Key, State>, k: Key): State {
    if k in states then states[k] else FRESH
  }

  predicate Logged(log: seq<Row>, node: byte, raw: seq<byte>) {
    exists i :: 0 <= i < |log| && log[i].node == node && log[i].raw == raw
  }

  predicate LoggedOn(log: seq<Row>, node: byte, raw: seq<byte>, date: (int, int, int)) {
    exists i :: 0 <= i < |log| && log[i].node == node && log[i].raw == raw && log[i].stamp.Date() == date
  }

  /** Whether the store says that it has this frame: a failing database says no, and day files are
      searched for one date only. */
  predicate Lookup(env: Env, log: seq<Row>, r: Reading, at: Stamp, fails: bool) {
    && r.raw != []
    && if env.backend == Db then !fails && Logged(log, r.node, r.raw) else LoggedOn(log, r.node, r.raw, at.Date())
  }

  function At(r: Reading, now: Stamp): Stamp {
    if r.stamp.Some? then r.stamp.value else now
  }

  predicate IsAccidental(s: State, t: int, repeat: int) {
    s.last.Some? && 0 <= t - s.last.value <= repeat
  }

  /** What an access event is, and the presence after it. */
  function Judge(env: Env, s: State, card: string, t: int): (Kind, Presence) {
    if card !in env.owners then (UnknownCard, s.presence)
    else if !env.owners[card].enabled then (RawEvent, s.presence)
    else if IsAccidental(s, t, env.repeat) then (Accidental, s.presence)
    else if s.presence == Absent then (Arrival, Present)
    else (Departure, Absent)
  }

  function RowFor(env: Env, s: State, r: Reading, at: Stamp): Row {
    if r.access then
      Row(at, Judge(env, s, r.card, at.Seconds()).0, r.card,
          if r.card in env.owners then env.owners[r.card].id else 0, r.node, r.raw)
    else Row(at, RawEvent, r.card, 0, r.node, r.raw)
  }

  /** INSERT IGNORE on the key of the frame, or a plain append. */
  function Append(env: Env, log: seq<Row>, row: Row): seq<Row> {
    if env.backend == Db && row.raw != [] && row.node > 0 && Logged(log, row.node, row.raw) then log else log + [row]
  }

  /** The state is looked up before the append, which creates it. */
  function Touch(states: map<Key, State>, k: Key): map<Key, State> {
    if k in states then states else states[k := FRESH]
  }

  function NextState(env: Env, s: State, r: Reading, at: Stamp): State {
    State(Judge(env, s, r.card, at.Seconds()).1, Some(at.Seconds()))
  }

  /** The whole handling of one event: the store keeps it or not, and it was there already or not. */
  datatype Outcome = Outcome(w: World, stored: bool, duplicate: bool)

  function Handle(env: Env, w: World, r: Reading, now: Stamp, f: Faults): Outcome {
    var at := At(r, now);
    if Lookup(env, w.log, r, at, f.lookup) then Outcome(w, true, true)
    else if !r.access then
      if f.append then Outcome(w, false, false)
      else Outcome(w.(log := Append(env, w.log, RowFor(env, FRESH, r, at))), true, false)
    else
      var k := KeyOf(env, r.card);
      var s := StateOf(w.states, k);
      if f.append then Outcome(w.(states := Touch(w.states, k)), false, false)
      else
        var states := w.states[k := NextState(env, s, r, at)];
        Outcome(World(Append(env, w.log, RowFor(env, s, r, at)), states, if f.save then w.saved else states), true, false)
  }

  // ---- presence is the fold of the log ----

  predicate IsToggle(row: Row, id: int) {
    row.userId == id && (row.kind == Arrival || row.kind == Departure)
  }

  function TogglesOf(log: seq<Row>, id: int): seq<Row> {
    if log == [] then []
    else
      var row := log[|log| - 1];
      TogglesOf(log[..|log| - 1], id) + (if IsToggle(row, id) then [row] else [])
  }

  function PresenceIn(log: seq<Row>, id: int): Presence {
    var ts := TogglesOf(log, id);
    if ts != [] && ts[|ts| - 1].kind == Arrival then Present else Absent
  }

  /** Arrivals and departures take turns, an arrival first. */
  ghost predicate Alternates(ts: seq<Row>) {
    forall i :: 0 <= i < |ts| ==> ts[i].kind == if i % 2 == 0 then Arrival else Departure
  }

  ghost predicate PresenceAgrees(w: World, id: int) {
    StateOf(w.states, OfUser(id)).presence == PresenceIn(w.log, id) && Alternates(TogglesOf(w.log, id))
  }

  lemma TogglesSnoc(log: seq<Row>, row: Row, id: int)
    ensures TogglesOf(log + [row], id) == if IsToggle(row, id) then TogglesOf(log, id) + [row] else TogglesOf(log, id)
  {
    assert (log + [row])[..|log|] == log;
  }

  lemma AlternatesSnoc(ts: seq<Row>, row: Row)
    requires Alternates(ts)
    requires row.kind == if ts != [] && ts[|ts| - 1].kind == Arrival then Departure else Arrival
    ensures Alternates(ts + [row])
  {
    if ts != [] {
      assert ts[|ts| - 1].kind == if (|ts| - 1) % 2 == 0 then Arrival else Departure;
    }
  }

  /** An event reaches the presence of this key: it is new, stored, and of an enabled user outside the
      repeat window. */
  predicate Toggles(env: Env, w: World, r: Reading, now: Stamp, f: Faults, k: Key) {
    var at := At(r, now);
    && r.access && !f.append && !Lookup(env, w.log, r, at, f.lookup)
    && k == KeyOf(env, r.card)
    && r.card in env.owners && env.owners[r.card].enabled
    && !IsAccidental(StateOf(w.states, k), at.Seconds(), env.repeat)
  }

  /** Presence changes by a toggle and by nothing else; the time of the last read only with a stored
      event of the same key. */
  lemma HandleEffect(env: Env, w: World, r: Reading, now: Stamp, f: Faults, k: Key)
    ensures var o := Handle(env, w, r, now, f);
            && (StateOf(o.w.states, k).presence != StateOf(w.states, k).presence <==> Toggles(env, w, r, now, f, k))
            && StateOf(o.w.states, k).last ==
                 (if o.stored && !o.duplicate && r.access && k == KeyOf(env, r.card)
                  then Some(At(r, now).Seconds()) else StateOf(w.states, k).last)
            && (o.duplicate || !o.stored ==> o.w.log == w.log && o.w.saved == w.saved)
            && (o.stored && r.raw != [] ==> Logged(o.w.log, r.node, r.raw))
  {
    var o := Handle(env, w, r, now, f);
    if o.stored && !o.duplicate {
      var s := if r.access then StateOf(w.states, KeyOf(env, r.card)) else FRESH;
      var row := RowFor(env, s, r, At(r, now));
      assert o.w.log == Append(env, w.log, row);
      assert o.w.log == w.log + [row] ==> o.w.log[|w.log|] == row;
    }
  }

  /** The one fault that parts presence from the log: a database that does not find a frame it has. */
  predicate LostLookup(env: Env, w: World, r: Reading, f: Faults) {
    env.backend == Db && f.lookup && r.raw != [] && r.node > 0 && Logged(w.log, r.node, r.raw)
  }

  lemma AppendedRow(env: Env, w: World, r: Reading, now: Stamp, f: Faults)
    requires !LostLookup(env, w, r, f)
    ensures var o := Handle(env, w, r, now, f);
            var s := if r.access then StateOf(w.states, KeyOf(env, r.card)) else FRESH;
            o.w.log == if o.stored && !o.duplicate then w.log + [RowFor(env, s, r, At(r, now))] else w.log
  {
  }

  /** The row tells how the presence of its user changes. */
  lemma RowTells(env: Env, w: World, r: Reading, now: Stamp, f: Faults, id: int, o: Outcome)
    requires o == Handle(env, w, r, now, f)
    ensures var before, after := StateOf(w.states, OfUser(id)).presence, StateOf(o.w.states, OfUser(id)).presence;
            if o.stored && !o.duplicate then
              var s := if r.access then StateOf(w.states, KeyOf(env, r.card)) else FRESH;
              var row := RowFor(env, s, r, At(r, now));
              if IsToggle(row, id) then
                && row.kind == (if before == Absent then Arrival else Departure)
                && after == (if before == Absent then Present else Absent)
              else after == before
            else after == before
  {
  }

  lemma AgreementStays(w: World, v: World, row: Row, id: int)
    requires PresenceAgrees(w, id) && v.log == w.log + [row]
    requires var before, after := StateOf(w.states, OfUser(id)).presence, StateOf(v.states, OfUser(id)).presence;
             if IsToggle(row, id) then
               && row.kind == (if before == Absent then Arrival else Departure)
               && after == (if before == Absent then Present else Absent)
             else after == before
    ensures PresenceAgrees(v, id)
  {
    TogglesSnoc(w.log, row, id);
    if IsToggle(row, id) {
      AlternatesSnoc(TogglesOf(w.log, id), row);
    }
  }

  /** Handling an event keeps every user's presence equal to the fold of the log. */
  lemma HandleKeepsAgreement(env: Env, w: World, r: Reading, now: Stamp, f: Faults, id: int, o: Outcome)
    requires PresenceAgrees(w, id) && !LostLookup(env, w, r, f) && o == Handle(env, w, r, now, f)
    ensures PresenceAgrees(o.w, id)
  {
    AppendedRow(env, w, r, now, f);
    RowTells(env, w, r, now, f, id, o);
    if o.stored && !o.duplicate {
      var s := if r.access then StateOf(w.states, KeyOf(env, r.card)) else FRESH;
      AgreementStays(w, o.w, RowFor(env, s, r, At(r, now)), id);
    }
  }

  /** When the database loses a lookup for a stored frame, presence and log still agree exactly if the
      event does not toggle: the log ignores the row, the memory does not. */
  lemma LostLookupParts(env: Env, w: World, r: Reading, now: Stamp, f: Faults, id: int)
    requires PresenceAgrees(w, id) && LostLookup(env, w, r, f)
    ensures PresenceAgrees(Handle(env, w, r, now, f).w, id) <==> !Toggles(env, w, r, now, f, OfUser(id))
    ensures Handle(env, w, r, now, f).w.log == w.log
  {
    HandleEffect(env, w, r, now, f, OfUser(id));
  }

  // ---- runs ----

  datatype Input = Input(r: Reading, now: Stamp, f: Faults)

  function Run(env: Env, w: World, inputs: seq<Input>): World {
    if inputs == [] then w
    else
      var i := inputs[|inputs| - 1];
      Handle(env, Run(env, w, inputs[..|inputs| - 1]), i.r, i.now, i.f).w
  }

  /** No input of the run meets a lost lookup. */
  ghost predicate NoLostLookup(env: Env, w: World, inputs: seq<Input>) {
    inputs != [] ==>
      && NoLostLookup(env, w, inputs[..|inputs| - 1])
      && !LostLookup(env, Run(env, w, inputs[..|inputs| - 1]), inputs[|inputs| - 1].r, inputs[|inputs| - 1].f)
  }

  const EMPTY := World([], map[], map[])

  /** Over every run, whichever cards were used and whichever appends and saves failed, each user's
      arrivals and departures alternate and the user is present exactly after an arrival. */
  lemma {:induction false} PresenceIsFold(env: Env, inputs: seq<Input>, id: int)
    requires NoLostLookup(env, EMPTY, inputs)
    ensures PresenceAgrees(Run(env, EMPTY, inputs), id)
  {
    if inputs != [] {
      var i := inputs[|inputs| - 1];
      PresenceIsFold(env, inputs[..|inputs| - 1], id);
      var w := Run(env, EMPTY, inputs[..|inputs| - 1]);
      HandleKeepsAgreement(env, w, i.r, i.now, i.f, id, Handle(env, w, i.r, i.now, i.f));
    }
  }

  // ---- debounce ----

  function Times(ts: seq<Row>): seq<int> {
    seq(|ts|, i requires 0 <= i < |ts| => ts[i].stamp.Seconds())
  }

  /** Neighbours are at least d apart. */
  ghost predicate Apart(times: seq<int>, d: int) {
    forall i :: 0 < i < |times| ==> times[i] >= times[i - 1] + d
  }

  lemma ApartSnoc(times: seq<int>, t: int, d: int)
    requires Apart(times, d) && (times == [] || t >= times[|times| - 1] + d)
    ensures Apart(times + [t], d)
  {
    var all := times + [t];
    forall i | 0 < i < |all|
      ensures all[i] >= all[i - 1] + d
    {
      if i < |times| {
        assert times[i] >= times[i - 1] + d;
      }
    }
  }

  ghost predicate InOrder(inputs: seq<Input>) {
    forall i :: 0 < i < |inputs| ==> At(inputs[i - 1].r, inputs[i - 1].now).Seconds() <= At(inputs[i].r, inputs[i].now).Seconds()
  }

  /** The last read of a user is no older than their last toggle, and no newer than `now`. */
  ghost predicate Windowed(env: Env, w: World, id: int, now: int) {
    var times, last := Times(TogglesOf(w.log, id)), StateOf(w.states, OfUser(id)).last;
    && Apart(times, env.repeat + 1)
    && (last.Some? ==> last.value <= now)
    && (times != [] ==> last.Some? && times[|times| - 1] <= last.value)
  }

  /** A row that toggles comes after the window of its user, and moves their last read. */
  lemma RowIsOutside(env: Env, w: World, r: Reading, now: Stamp, f: Faults, id: int, o: Outcome)
    requires o == Handle(env, w, r, now, f) && o.stored && !o.duplicate
    ensures var s := if r.access then StateOf(w.states, KeyOf(env, r.card)) else FRESH;
            var last, t := StateOf(w.states, OfUser(id)).last, At(r, now).Seconds();
            IsToggle(RowFor(env, s, r, At(r, now)), id) ==>
              && StateOf(o.w.states, OfUser(id)).last == Some(t)
              && (last.Some? ==> t < last.value || t > last.value + env.repeat)
  {
  }

  lemma WindowStays(env: Env, w: World, v: World, row: Row, id: int, before: int)
    requires Windowed(env, w, id, before) && before <= row.stamp.Seconds() && v.log == w.log + [row]
    requires var last, t := StateOf(w.states, OfUser(id)).last, row.stamp.Seconds();
             && StateOf(v.states, OfUser(id)).last in {last, Some(t)}
             && (IsToggle(row, id) ==>
                  && StateOf(v.states, OfUser(id)).last == Some(t)
                  && (last.Some? ==> t < last.value || t > last.value + env.repeat))
    ensures Windowed(env, v, id, row.stamp.Seconds())
  {
    TogglesSnoc(w.log, row, id);
    var ts := TogglesOf(w.log, id);
    if IsToggle(row, id) {
      assert Times(ts + [row]) == Times(ts) + [row.stamp.Seconds()];
      ApartSnoc(Times(ts), row.stamp.Seconds(), env.repeat + 1);
    }
  }

  lemma HandleKeepsWindow(env: Env, w: World, r: Reading, now: Stamp, f: Faults, id: int, before: int, o: Outcome)
    requires Windowed(env, w, id, before) && before <= At(r, now).Seconds() && !LostLookup(env, w, r, f)
    requires o == Handle(env, w, r, now, f)
    ensures Windowed(env, o.w, id, At(r, now).Seconds())
  {
    AppendedRow(env, w, r, now, f);
    HandleEffect(env, w, r, now, f, OfUser(id));
    if o.stored && !o.duplicate {
      RowIsOutside(env, w, r, now, f, id, o);
      var s := if r.access then StateOf(w.states, KeyOf(env, r.card)) else FRESH;
      WindowStays(env, w, o.w, RowFor(env, s, r, At(r, now)), id, before);
    }
  }

  lemma {:induction false} RunKeepsWindow(env: Env, inputs: seq<Input>, id: int)
    requires inputs != [] && NoLostLookup(env, EMPTY, inputs) && InOrder(inputs)
    ensures var i := inputs[|inputs| - 1];
            Windowed(env, Run(env, EMPTY, inputs), id, At(i.r, i.now).Seconds())
  {
    var n := |inputs| - 1;
    var i := inputs[n];
    var w := Run(env, EMPTY, inputs[..n]);
    var t := At(i.r, i.now).Seconds();
    if n == 0 {
      assert Times([]) == [];
      HandleKeepsWindow(env, w, i.r, i.now, i.f, id, t, Handle(env, w, i.r, i.now, i.f));
    } else {
      RunKeepsWindow(env, inputs[..n], id);
      var j := inputs[n - 1];
      assert inputs[..n][n - 1] == j;
      HandleKeepsWindow(env, w, i.r, i.now, i.f, id, At(j.r, j.now).Seconds(), Handle(env, w, i.r, i.now, i.f));
    }
  }

  lemma {:induction false} ApartSpan(times: seq<int>, d: int, i: nat, j: nat)
    requires Apart(times, d) && i <= j < |times|
    ensures times[j] - times[i] >= (j - i) * d
    decreases j
  {
    if i < j {
      ApartSpan(times, d, i, j - 1);
      assert (j - i) * d == (j - 1 - i) * d + d;
    }
  }

  /** Of events in the order of time, n toggles of a user span at least (n - 1) repeat windows and as
      many seconds, although every accidental read moves the window on. */
  lemma DebounceBound(env: Env, inputs: seq<Input>, id: int, i: nat, j: nat)
    requires NoLostLookup(env, EMPTY, inputs) && InOrder(inputs)
    requires i <= j < |TogglesOf(Run(env, EMPTY, inputs).log, id)|
    ensures var ts := TogglesOf(Run(env, EMPTY, inputs).log, id);
            ts[j].stamp.Seconds() - ts[i].stamp.Seconds() >= (j - i) * (env.repeat + 1)
  {
    var ts := TogglesOf(Run(env, EMPTY, inputs).log, id);
    if inputs != [] {
      RunKeepsWindow(env, inputs, id);
      ApartSpan(Times(ts), env.repeat + 1, i, j);
    }
  }

  // ---- one row per frame ----

  /** No controller frame is in the log twice. */
  ghost predicate Unique(log: seq<Row>) {
    forall i, j :: 0 <= i < j < |log| && log[i].raw != [] ==> log[i].node != log[j].node || log[i].raw != log[j].raw
  }

  /** Rows stored for a decoded frame carry its date, so that a day file finds them. */
  ghost predicate Dated(log: seq<Row>, stampOf: seq<byte> -> Option<Stamp>) {
    forall i :: 0 <= i < |log| && stampOf(log[i].raw).Some? ==> log[i].stamp == stampOf(log[i].raw).value
  }

  lemma HandleKeepsDates(env: Env, w: World, r: Reading, now: Stamp, f: Faults, stampOf: seq<byte> -> Option<Stamp>)
    requires Dated(w.log, stampOf) && r.stamp == stampOf(r.raw)
    ensures Dated(Handle(env, w, r, now, f).w.log, stampOf)
  {
  }

  lemma DatedIsFound(env: Env, log: seq<Row>, r: Reading, now: Stamp, stampOf: seq<byte> -> Option<Stamp>)
    requires env.backend == Csv && Dated(log, stampOf) && r.stamp == stampOf(r.raw) && r.stamp.Some?
    requires r.raw != [] && Logged(log, r.node, r.raw)
    ensures Lookup(env, log, r, At(r, now), false)
  {
    var i :| 0 <= i < |log| && log[i].node == r.node && log[i].raw == r.raw;
    assert log[i].stamp == r.stamp.value;
  }

  /** What keeps a logged frame from being stored again: with day files, that its time decodes or that
      it was logged today; in a database, that its node is not 0 or that the lookup works. */
  predicate Kept(env: Env, log: seq<Row>, r: Reading, now: Stamp, lookupFails: bool) {
    if env.backend == Csv then r.stamp.Some? || LoggedOn(log, r.node, r.raw, now.Date())
    else r.node > 0 || !lookupFails
  }

  /** A logged frame makes the log grow exactly if nothing keeps it from being stored again. */
  lemma LoggedAgain(env: Env, w: World, r: Reading, now: Stamp, f: Faults, stampOf: seq<byte> -> Option<Stamp>)
    requires Dated(w.log, stampOf) && r.stamp == stampOf(r.raw)
    requires r.raw != [] && Logged(w.log, r.node, r.raw)
    ensures Handle(env, w, r, now, f).w.log != w.log <==> !f.append && !Kept(env, w.log, r, now, f.lookup)
  {
    if env.backend == Csv && r.stamp.Some? {
      DatedIsFound(env, w.log, r, now, stampOf);
    }
  }

  /** So the log keeps one row per frame exactly unless such a frame is handled and appended. */
  lemma UniqueUnlessStoredAgain(env: Env, w: World, r: Reading, now: Stamp, f: Faults,
                                stampOf: seq<byte> -> Option<Stamp>)
    requires Unique(w.log) && Dated(w.log, stampOf) && r.stamp == stampOf(r.raw)
    ensures Unique(Handle(env, w, r, now, f).w.log) <==>
      r.raw == [] || !Logged(w.log, r.node, r.raw) || f.append || Kept(env, w.log, r, now, f.lookup)
  {
    var o := Handle(env, w, r, now, f);
    if r.raw != [] && Logged(w.log, r.node, r.raw) {
      LoggedAgain(env, w, r, now, f, stampOf);
    }
    if o.w.log != w.log {
      var s := if r.access then StateOf(w.states, KeyOf(env, r.card)) else FRESH;
      var row := RowFor(env, s, r, At(r, now));
      assert o.w.log == w.log + [row];
      if Logged(w.log, r.node, r.raw) {
        var i :| 0 <= i < |w.log| && w.log[i].node == r.node && w.log[i].raw == r.raw;
        assert o.w.log[i] == w.log[i] && o.w.log[|w.log|] == row;
      }
    }
  }

  /** No two rows of this frame. */
  ghost predicate Once(log: seq<Row>, node: byte, raw: seq<byte>) {
    forall i, j :: 0 <= i < j < |log| && log[i].node == node && log[i].raw == raw ==> log[j].node != node || log[j].raw != raw
  }

  lemma HandleKeepsOnce(env: Env, w: World, r: Reading, now: Stamp, f: Faults, stampOf: seq<byte> -> Option<Stamp>,
                        node: byte, raw: seq<byte>)
    requires env.backend == Csv && raw != [] && stampOf(raw).Some?
    requires Once(w.log, node, raw) && Dated(w.log, stampOf) && r.stamp == stampOf(r.raw)
    ensures Once(Handle(env, w, r, now, f).w.log, node, raw)
  {
    if r.node == node && r.raw == raw && Logged(w.log, node, raw) {
      LoggedAgain(env, w, r, now, f, stampOf);
    }
  }

  ghost predicate Stamped(inputs: seq<Input>, stampOf: seq<byte> -> Option<Stamp>) {
    forall i :: 0 <= i < |inputs| ==> inputs[i].r.stamp == stampOf(inputs[i].r.raw)
  }

  /** With day files a frame whose time decodes is stored once in every run, whatever the clock says. */
  lemma {:induction false} DecodedIsStoredOnce(env: Env, inputs: seq<Input>, stampOf: seq<byte> -> Option<Stamp>,
                                               node: byte, raw: seq<byte>)
    requires env.backend == Csv && raw != [] && stampOf(raw).Some? && Stamped(inputs, stampOf)
    ensures Once(Run(env, EMPTY, inputs).log, node, raw) && Dated(Run(env, EMPTY, inputs).log, stampOf)
  {
    if inputs != [] {
      var before, i := inputs[..|inputs| - 1], inputs[|inputs| - 1];
      DecodedIsStoredOnce(env, before, stampOf, node, raw);
      HandleKeepsOnce(env, Run(env, EMPTY, before), i.r, i.now, i.f, stampOf, node, raw);
      HandleKeepsDates(env, Run(env, EMPTY, before), i.r, i.now, i.f, stampOf);
    }
  }
}

/** The engine and its store, changed in place. */
module AttendanceEngines {
  import opened Wrappers
  import opened Events
  import opened Attendance

  /** The durable store. A call may fail; a call that succeeds has its whole effect. */
  class FileStore {
    const env: Env
    const writable: bool  // appending to the log never fails
    var log: seq<Row>
    var saved: map<Key, State>

    constructor (env: Env, writable: bool)
      ensures this.env == env && this.writable == writable && log == [] && saved == map[]
    {
      this.env, this.writable := env, writable;
      log, saved := [], map[];
    }

    method AppendEvent(row: Row) returns (ok: bool)
      modifies this`log
      ensures log == if ok then Append(env, old(log), row) else old(log)
      ensures writable ==> ok
    {
      var error: bool := *;
      ok := writable || !error;
      if ok {
        log := Append(env, log, row);
      }
    }

    /** Looks for a frame: by its key in a database, line by line in one day file. */
    method HasControllerEvent(r: Reading, at: Stamp) returns (found: bool, ghost failed: bool)
      ensures found == Lookup(env, log, r, at, failed)
      ensures found ==> r.raw != [] && Logged(log, r.node, r.raw)
      ensures env.backend == Csv ==> (found <==> r.raw != [] && LoggedOn(log, r.node, r.raw, at.Date()))
    {
      failed := false;
      if r.raw == [] {
        return false, false;
      }
      if env.backend == Db {
        var error: bool := *;
        failed := error;
        return !error && Logged(log, r.node, r.raw), failed;
      }
      for i := 0 to |log|
        invariant forall j :: 0 <= j < i ==> !(log[j].node == r.node && log[j].raw == r.raw && log[j].stamp.Date() == at.Date())
      {
        if log[i].stamp.Date() == at.Date() && log[i].node == r.node && log[i].raw == r.raw {
          return true, false;
        }
      }
      found := false;
    }

    method SaveCardStates(states: map<Key, State>) returns (ok: bool)
      modifies this`saved
      ensures saved == if ok then states else old(saved)
    {
      ok := *;
      if ok {
        saved := states;
      }
    }
  }

  class AttendanceEngine {
    const store: FileStore
    var states: map<Key, State>

    /** A restart: the presence table is what was saved last. */
    constructor (store: FileStore)
      ensures this.store == store && states == store.saved
    {
      this.store := store;
      states := store.saved;
    }

    function World(): World
      reads this, store
    {
      Attendance.World(store.log, states, store.saved)
    }

    method OnControllerAccessEvent(r: Reading, now: Stamp) returns (stored: bool, duplicate: bool, ghost f: Faults)
      requires r.access
      modifies this, store
      ensures Outcome(World(), stored, duplicate) == Handle(store.env, old(World()), r, now, f)
      ensures store.writable ==> stored
    {
      var at := At(r, now);
      var found, lost := store.HasControllerEvent(r, at);
      if found {
        return true, true, Faults(lost, false, false);
      }
      var key := KeyOf(store.env, r.card);
      states := Touch(states, key);
      var st := states[key];
      var known := r.card in store.env.owners;
      var accidental := st.last.Some? && 0 <= at.Seconds() - st.last.value <= store.env.repeat;
      var kind := if known then RawEvent else UnknownCard;
      var next := st.presence;
      if known && store.env.owners[r.card].enabled {
        if accidental {
          kind := Accidental;
        } else if st.presence == Absent {
          next, kind := Present, Arrival;
        } else {
          next, kind := Absent, Departure;
        }
      }
      var ok := store.AppendEvent(Row(at, kind, r.card, if known then store.env.owners[r.card].id else 0, r.node, r.raw));
      if !ok {
        return false, false, Faults(lost, true, false);
      }
      states := states[key := State(next, Some(at.Seconds()))];
      var saved := store.SaveCardStates(states);
      stored, duplicate, f := true, false, Faults(lost, false, !saved);
      assert old(states)[key := State(next, Some(at.Seconds()))] == states;
    }

    method RecordControllerRawEvent(r: Reading, now: Stamp) returns (stored: bool, duplicate: bool, ghost f: Faults)
      requires !r.access
      modifies this, store
      ensures Outcome(World(), stored, duplicate) == Handle(store.env, old(World()), r, now, f)
      ensures store.writable ==> stored
    {
      var at := At(r, now);
      var found, lost := store.HasControllerEvent(r, at);
      if found {
        return true, true, Faults(lost, false, false);
      }
      stored := store.AppendEvent(Row(at, RawEvent, r.card, 0, r.node, r.raw));
      duplicate, f := false, Faults(lost, !stored, false);
    }
  }
}
