/** The controllers on the line and the line itself, as an adversary.

    A request may be lost or executed; a controller may acknowledge a write it did not make and may
    refuse one it did make. What comes back is any number of frames, each of them damaged (and then
    its check bytes do not fit), an echo of the request, or an answer. An answer that carries stored
    data carries the data that is stored. A frame that comes later than the timeout is lost. Events
    may be queued before any request is handled. */
module Devices {
  import opened Bytes
  import opened Framing

  const ACK: byte := 0x04
  const NACK: byte := 0x05
  const DATA_ECHO: byte := 0x03
  const EEPROM_DATA: byte := 0x02

  const READ_EEPROM: byte := 0x12
  const WRITE_EEPROM: byte := 0x20
  const GET_EVENT: byte := 0x25
  const REMOVE_EVENT: byte := 0x37
  const SET_USER: byte := 0x83
  const GET_USER: byte := 0x87

  const SLOTS := 1024
  const EEPROM_SIZE := 65536
  const MAX_RECORD := 240
  const EVENT_LENGTH := 18

  /** A request as the line carries it: destination, command and data. */
  datatype Request = Request(node: byte, cmd: byte, data: seq<byte>)

  /** The standard frame and the extended one, which differ in their headers. */
  datatype Format = Standard | Extended {
    function Header(): nat {
      if Standard? then 2 else 6
    }

    predicate Valid(f: seq<byte>)
      ensures Valid(f) ==> |f| >= Header() + 4
    {
      if Standard? then ValidFrame(f) else ValidExtendedFrame(f)
    }

    function Parse(f: seq<byte>): Request
      requires Valid(f)
    {
      Request(f[Header()], f[Header() + 1], f[Header() + 2..|f| - 2])
    }

    function Build(node: byte, cmd: byte, data: seq<byte>): seq<byte> {
      if Standard? then Frame(node, cmd, data) else ExtendedFrame(node, cmd, data)
    }
  }

  /** What a controller stores: one record per user address, and its EEPROM. */
  datatype Tables = Tables(slots: seq<seq<byte>>, eeprom: seq<byte>) {
    predicate WellFormed() {
      && |slots| == SLOTS
      && |eeprom| == EEPROM_SIZE
      && forall a :: 0 <= a < SLOTS ==> |slots[a]| <= MAX_RECORD
    }

    function WithSlot(a: nat, record: seq<byte>): Tables
      requires a < |slots|
    {
      this.(slots := slots[a := record])
    }

    function WithEeprom(a: nat, bytes: seq<byte>): Tables
      requires a + |bytes| <= |eeprom|
    {
      this.(eeprom := eeprom[..a] + bytes + eeprom[a + |bytes|..])
    }
  }

  predicate AllWellFormed(tables: map<byte, Tables>) {
    forall n :: n in tables ==> tables[n].WellFormed()
  }

  /** The event queue of a controller: every event it ever queued, the oldest ones removed. */
  datatype Fifo = Fifo(queued: seq<seq<byte>>, removed: nat) {
    predicate WellFormed() {
      removed <= |queued|
    }

    predicate Empty() {
      removed >= |queued|
    }

    function Pop(): Fifo {
      if Empty() then this else this.(removed := removed + 1)
    }

    /** New events may have been queued; the oldest one was removed if `popped`. */
    ghost predicate Becomes(later: Fifo, popped: bool) {
      && |queued| <= |later.queued|
      && (forall i :: 0 <= i < |queued| ==> queued[i] == later.queued[i])
      && later.removed == if popped && removed < |later.queued| then removed + 1 else removed
    }
  }

  /** Every queue took in events; that of `node` gave up its oldest one if `popped`. */
  ghost predicate FifosAfter(before: map<byte, Fifo>, after: map<byte, Fifo>, node: byte, popped: bool) {
    before.Keys == after.Keys && forall n :: n in before ==> before[n].Becomes(after[n], popped && n == node)
  }

  /** The queues if nothing new was noticed. */
  function Quietly(fifos: map<byte, Fifo>, node: byte, popped: bool): map<byte, Fifo> {
    if popped && node in fifos then fifos[node := fifos[node].Pop()] else fifos
  }

  /** No event was removed. */
  ghost predicate Grown(before: map<byte, Fifo>, after: map<byte, Fifo>) {
    FifosAfter(before, after, 0, false)
  }

  lemma PoppedAfterGrowth(before: map<byte, Fifo>, after: map<byte, Fifo>, node: byte, popped: bool)
    requires Grown(before, after)
    requires popped ==> node in after && after[node].WellFormed()
    ensures FifosAfter(before, if popped then after[node := after[node].Pop()] else after, node, popped)
  {
    var f := if popped then after[node := after[node].Pop()] else after;
    forall n | n in before
      ensures before[n].Becomes(f[n], popped && n == node)
    {
      assert before[n].Becomes(after[n], false);
    }
  }

  /** The effect of a request on the tables of the controller that executes it. */
  function Execute(t: Tables, cmd: byte, data: seq<byte>): (r: Tables)
    requires t.WellFormed()
    ensures r.WellFormed()
  {
    if cmd == SET_USER && 2 <= |data| <= MAX_RECORD + 2 && Word(data[0], data[1]) < SLOTS then
      t.WithSlot(Word(data[0], data[1]), data[2..])
    else if cmd == WRITE_EEPROM && |data| >= 3 && data[2] == |data| - 3
            && Word(data[0], data[1]) + data[2] <= EEPROM_SIZE then
      t.WithEeprom(Word(data[0], data[1]), data[3..])
    else t
  }

  predicate IsWrite(cmd: byte) {
    cmd in {SET_USER, WRITE_EEPROM, REMOVE_EVENT}
  }

  /** What an answer `r` to a request may say, given what the controller stores when it answers. */
  predicate Truthful(format: Format, t: Tables, fifo: Fifo, executed: bool, cmd: byte, data: seq<byte>, r: seq<byte>)
    requires format.Valid(r)
  {
    var h := format.Header();
    var code := r[h + 1];
    if cmd == GET_USER then
      |r| >= h + 5 && code == DATA_ECHO ==>
        && |data| == 3
        && Word(data[0], data[1]) < |t.slots|
        && r[h + 3..|r| - 2] == t.slots[Word(data[0], data[1])]
    else if cmd == READ_EEPROM then
      |r| >= h + 5 && (code == DATA_ECHO || code == EEPROM_DATA) && |data| == 3 ==>
        var a, n := Word(data[0], data[1]), Min(|r| - h - 5, data[2]);
        a + n <= |t.eeprom| ==> r[h + 3..h + 3 + n] == t.eeprom[a..a + n]
    else if cmd == GET_EVENT then
      if |r| >= EVENT_LENGTH then !fifo.Empty() && r == fifo.queued[fifo.removed]
      else code != NACK ==> fifo.Empty()
    else if cmd == REMOVE_EVENT then
      code != NACK ==> executed
    else true
  }

  /** What the line does in one exchange: the events that are noticed meanwhile, whether the request
      arrives, the frames that come back before the timeout, and whether the port took the request. */
  datatype Turn = Turn(arrivals: seq<(byte, seq<byte>)>, reached: bool, frames: seq<seq<byte>>, sent: bool)

  const SILENCE := Turn([], false, [], false)

  function NextTurn(script: seq<Turn>): Turn {
    if script == [] then SILENCE else script[0]
  }

  function LaterTurns(script: seq<Turn>): seq<Turn> {
    if script == [] then [] else script[1..]
  }

  /** The next turn takes the request and brings back just this frame. */
  predicate Brings(script: seq<Turn>, r: seq<byte>) {
    script != [] && script[0].sent && script[0].frames == [r]
  }

  /** A frame that was read, and the request that was on the line then. */
  datatype Heard = Heard(request: seq<byte>, frame: seq<byte>)

  /** The script is the adversary: nothing is known of it, so what holds here holds for every one. */
  class Bus {
    var tables: map<byte, Tables>
    var fifos: map<byte, Fifo>
    var inbox: seq<seq<byte>>
    var script: seq<Turn>
    ghost var asked: seq<byte>
    ghost var writes: seq<Request>  // every write request ever put on the line
    ghost var heard: seq<Heard>     // every frame ever read from it

    constructor (tables: map<byte, Tables>, fifos: map<byte, Fifo>, script: seq<Turn>)
      requires tables.Keys == fifos.Keys
      requires AllWellFormed(tables)
      requires forall n :: n in fifos ==> fifos[n].WellFormed()
      ensures Valid() && this.tables == tables && this.fifos == fifos && this.script == script
      ensures writes == [] && heard == []
    {
      this.tables := tables;
      this.fifos := fifos;
      this.script := script;
      inbox, asked, writes, heard := [], [], [], [];
    }

    ghost predicate Valid()
      reads this
    {
      && tables.Keys == fifos.Keys
      && AllWellFormed(tables)
      && (forall n :: n in fifos ==> fifos[n].WellFormed())
    }

    /** Whether r may arrive in answer to the request q. */
    predicate Deliverable(format: Format, q: seq<byte>, executed: bool, r: seq<byte>)
      reads this`tables, this`fifos
    {
      || !format.Valid(r)
      || r == q
      || (format.Valid(q) && Answers(format, format.Parse(q), executed, r))
    }

    predicate Answers(format: Format, w: Request, executed: bool, r: seq<byte>)
      requires format.Valid(r)
      reads this`tables, this`fifos
    {
      && w.node in tables && w.node in fifos
      && Truthful(format, tables[w.node], fifos[w.node], executed, w.cmd, w.data, r)
    }

    /** Controllers notice events on their own. */
    method Arrivals(events: seq<(byte, seq<byte>)>)
      requires Valid()
      modifies this`fifos
      ensures Valid()
      ensures Grown(old(fifos), fifos) && (events == [] ==> fifos == old(fifos))
    {
      for i := 0 to |events|
        invariant Valid() && Grown(old(fifos), fifos)
        invariant i == 0 ==> fifos == old(fifos)
      {
        var n := events[i].0;
        if n in fifos {
          fifos := fifos[n := fifos[n].(queued := fifos[n].queued + [events[i].1])];
        }
      }
    }

    /** A request may reach its controller, which then carries it out. */
    method Reach(w: Request, turn: Turn) returns (executed: bool)
      requires Valid()
      modifies this`tables, this`fifos
      ensures Valid()
      ensures executed <==> turn.reached && w.node in old(tables)
      ensures tables == if executed then old(tables)[w.node := Execute(old(tables)[w.node], w.cmd, w.data)] else old(tables)
      ensures FifosAfter(old(fifos), fifos, w.node, executed && w.cmd == REMOVE_EVENT)
      ensures turn.arrivals == [] ==> fifos == Quietly(old(fifos), w.node, executed && w.cmd == REMOVE_EVENT)
    {
      Arrivals(turn.arrivals);
      executed := turn.reached && w.node in tables;
      PoppedAfterGrowth(old(fifos), fifos, w.node, executed && w.cmd == REMOVE_EVENT);
      if executed {
        tables := tables[w.node := Execute(tables[w.node], w.cmd, w.data)];
        if w.cmd == REMOVE_EVENT {
          fifos := fifos[w.node := fifos[w.node].Pop()];
        }
      }
    }

    /** Puts q on the line and collects what comes back before the timeout: the frames of the script,
        or nothing if one of them could not arrive. */
    method WriteAll(format: Format, q: seq<byte>) returns (sent: bool, ghost executed: bool)
      requires Valid()
      modifies this`tables, this`fifos, this`inbox, this`script, this`asked, this`writes
      ensures Valid()
      ensures !format.Valid(q) ==>
        !executed && tables == old(tables) && writes == old(writes) && Grown(old(fifos), fifos)
      ensures format.Valid(q) ==>
        var w := format.Parse(q);
        && (executed ==> w.node in old(tables))
        && tables == (if executed then old(tables)[w.node := Execute(old(tables)[w.node], w.cmd, w.data)] else old(tables))
        && writes == old(writes) + (if IsWrite(w.cmd) then [w] else [])
        && FifosAfter(old(fifos), fifos, w.node, executed && w.cmd == REMOVE_EVENT)
      ensures forall r :: r in inbox ==> Deliverable(format, q, executed, r)
      ensures format.Valid(q) ==>
        var w, turn := format.Parse(q), NextTurn(old(script));
        && (executed <==> turn.reached && w.node in old(tables))
        && (turn.arrivals == [] ==> fifos == Quietly(old(fifos), w.node, executed && w.cmd == REMOVE_EVENT))
      ensures asked == q && script == LaterTurns(old(script)) && sent == NextTurn(old(script)).sent
      ensures var frames := NextTurn(old(script)).frames;
              (forall r :: r in frames ==> Deliverable(format, q, executed, r)) ==> inbox == frames
    {
      var turn := NextTurn(script);
      script := LaterTurns(script);
      asked := q;
      var reached := false;
      if format.Valid(q) {
        var w := format.Parse(q);
        writes := writes + (if IsWrite(w.cmd) then [w] else []);
        reached := Reach(w, turn);
      } else {
        Arrivals(turn.arrivals);
      }
      executed := reached;
      inbox := turn.frames;
      if exists r :: r in inbox && !Deliverable(format, q, reached, r) {
        inbox := [];
      }
      sent := turn.sent;
    }

    /** The next frame to arrive, or nothing when none comes before the timeout. */
    method ReadFrame() returns (r: seq<byte>)
      modifies this`inbox, this`heard
      ensures old(inbox) == [] ==> r == [] && inbox == [] && heard == old(heard)
      ensures old(inbox) != [] ==>
        r == old(inbox)[0] && inbox == old(inbox)[1..] && heard == old(heard) + [Heard(asked, r)]
    {
      if inbox == [] {
        return [];
      }
      r := inbox[0];
      inbox := inbox[1..];
      heard := heard + [Heard(asked, r)];
    }
  }

  /** The last frame read in answer to a 25H to this node is a valid one too short for an event. */
  ghost predicate ShortRead(heard: seq<Heard>, node: byte) {
    && heard != []
    && var h := heard[|heard| - 1];
    && h.request == Frame(node, GET_EVENT, [])
    && h.frame != h.request && ValidFrame(h.frame) && |h.frame| < EVENT_LENGTH
  }

  /** And it is a NACK. */
  ghost predicate Refused(heard: seq<Heard>, node: byte) {
    ShortRead(heard, node) && heard[|heard| - 1].frame[3] == NACK
  }

  /** The line will take the next request and bring back one short NACK. */
  predicate Refuses(script: seq<Turn>) {
    && script != [] && |script[0].frames| == 1 && Brings(script, script[0].frames[0])
    && ValidFrame(script[0].frames[0]) && |script[0].frames[0]| < EVENT_LENGTH && script[0].frames[0][3] == NACK
  }
}
