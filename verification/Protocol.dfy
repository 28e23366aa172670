/** The records of the 83H and 87H commands: what is written for a user, what is read back. */
module Records {
  import opened Bytes
  import opened Wrappers
  import opened Text
  import opened CardText
  import opened Types

  const H_RECORD := 8
  const ENTERPRISE_RECORD := 24
  const LAST_ZONE: byte := 0x0B
  const DEFAULT_ZONE: byte := 0x01
  const ZEROS: seq<byte> := [0, 0, 0, 0, 0, 0, 0, 0]

  /** Command 83H: 00 invalid, 01 card only, 02 card or PIN, 03 card and PIN. */
  function ModeByte(u: User): byte {
    if !u.enabled then 0
    else if u.accessMode == "card_or_pin" then 2
    else if u.accessMode == "card_and_pin" then 3
    else 1
  }

  function ModeFromByte(mode: byte): string {
    if mode == 2 then "card_or_pin"
    else if mode == 3 then "card_and_pin"
    else if mode == 0 || mode == 1 then "card"
    else ""
  }

  /** No PIN, or exactly four digits between 0001 and 9999. */
  function ParsePin(pin: string): Option<word> {
    var s := Trim(pin);
    if s == "" then Some(0)
    else if |s| != 4 || !AllDigits(s) then None
    else
      FourDigits(s);
      if DecimalValue(s) < 1 then None else Some(DecimalValue(s))
  }

  function Tens(n: nat): nat {
    if n == 0 then 1 else 10 * Tens(n - 1)
  }

  lemma {:induction false} DigitsBound(s: string)
    requires AllDigits(s)
    ensures DecimalValue(s) < Tens(|s|)
  {
    if s != [] {
      DigitsBound(s[..|s| - 1]);
    }
  }

  lemma FourDigits(s: string)
    requires |s| == 4 && AllDigits(s)
    ensures DecimalValue(s) <= 9999
  {
    DigitsBound(s);
    assert Tens(4) == 10000;
  }

  /** The card that goes to the controller: the primary one. */
  function PrimaryCard(u: User): string {
    if u.card == "" && u.cards != [] then u.cards[0] else u.card
  }

  /** Site, card, PIN and mode of the record written for u, or nothing when u cannot be written. */
  function Credentials(u: User): (r: Option<seq<byte>>)
    ensures r.Some? ==> |r.value| == H_RECORD - 1
  {
    var c := ParseCardId(PrimaryCard(u));
    var pin := ParsePin(u.pinCode);
    if c.None? || pin.None? then None
    else if u.accessMode in {"card_or_pin", "card_and_pin"} && pin.value == 0 then None
    else Some([c.value.series / 256, c.value.series % 256, c.value.number / 256, c.value.number % 256,
               pin.value / 256, pin.value % 256, ModeByte(u)])
  }

  datatype UserReadOutcome = UserReadOutcome(
    ok: bool,
    present: bool,
    enabled: bool,
    uid1: word,
    uid2: word,
    pin: nat,
    mode: byte,
    accessMode: string,
    cardKnown: bool,
    detailsKnown: bool,
    rawRecord: seq<byte>)

  const NO_READ := UserReadOutcome(false, false, false, 0, 0, 0, 0, "", true, true, [])

  predicate AllZero(record: seq<byte>) {
    forall i :: 0 <= i < |record| ==> record[i] == 0
  }

  /** The meaning of the record bytes of an 87H answer. */
  function DecodeRecord(record: seq<byte>): UserReadOutcome {
    if |record| == H_RECORD then
      UserReadOutcome(true, !AllZero(record), record[6] != 0,
        Word(record[0], record[1]), Word(record[2], record[3]), Word(record[4], record[5]),
        record[6], ModeFromByte(record[6]), true, record[6] <= 3, record)
    else if |record| >= ENTERPRISE_RECORD then
      var uid1, uid2, mode := Word(record[4], record[5]), Word(record[6], record[7]), record[12];
      UserReadOutcome(true, !(mode == 0 && uid1 == 0xFFFF && uid2 == 0xFFFF), mode > 0,
        uid1, uid2, Word(record[8], record[9]) * 65536 + Word(record[10], record[11]),
        mode, ModeFromByte(mode), true, true, record)
    else NO_READ.(rawRecord := record)
  }

  /** The time zone of an occupied slot is kept; any other slot gets the default one. */
  function ZoneFor(record: seq<byte>): byte {
    if |record| == H_RECORD && !AllZero(record) && record[7] <= LAST_ZONE then record[7] else DEFAULT_ZONE
  }

  /** The record that writing u over `record` leaves. */
  function RecordFor(u: User, record: seq<byte>): (r: seq<byte>)
    requires Credentials(u).Some?
    ensures |r| == H_RECORD
  {
    Credentials(u).value + [ZoneFor(record)]
  }

  /** A record with its mode set to Invalid and nothing else changed. */
  function Disabled(record: seq<byte>): (r: seq<byte>)
    requires |record| == H_RECORD
    ensures |r| == H_RECORD
  {
    record[6 := 0]
  }
}

module Protocol {
  import opened Bytes
  import opened Framing
  import opened Wrappers
  import opened Types
  import opened Devices
  import opened Records

  datatype Status =
    | WrittenVerified | Skipped | InvalidUser | PrecheckFailed
    | Timeout | WriteError | WriteNack | VerifyFailed
    | SlotInvalid | SlotClearedVerified
    | UnsupportedRecord | AlreadyInvalid | InvalidatedVerified
    | PassAnyReadFailed | PassAnyWriteFailed | PassAnyDisabled | PassAnyRewrittenDisabled

  datatype Outcome = Outcome(ok: bool, status: Status)

  /** The statuses that report success. */
  predicate Good(status: Status) {
    status in {WrittenVerified, SlotClearedVerified, AlreadyInvalid, InvalidatedVerified, PassAnyDisabled, PassAnyRewrittenDisabled}
  }

  /** The EEPROM byte that holds the assigned functions, 24* of the keypad. */
  const ASSIGNED_FUNCTIONS := 0x16

  function AddressBytes(a: nat): seq<byte>
    requires a < 65536
  {
    [a / 256, a % 256]
  }

  predicate WritableRange(address: int, length: nat) {
    0 <= address && 1 <= length <= 240 && address + length <= EEPROM_SIZE
  }

  function SetUser(node: byte, a: nat, record: seq<byte>): Request
    requires a < 65536
  {
    Request(node, SET_USER, AddressBytes(a) + record)
  }

  /** Either nothing changed or the one slot was overwritten with the whole record. */
  ghost predicate AllOrNothing(before: map<byte, Tables>, after: map<byte, Tables>, node: byte, a: nat,
                               record: seq<byte>) {
    || after == before
    || (node in before && a < |before[node].slots| && after == before[node := before[node].WithSlot(a, record)])
  }

  ghost predicate SlotHolds(tables: map<byte, Tables>, node: byte, a: nat, record: seq<byte>) {
    node in tables && a < |tables[node].slots| && tables[node].slots[a] == record
  }

  /** The answer to a write, as far as it stops the operation. */
  function AckStatus(reply: Option<seq<byte>>): Option<Status> {
    if reply.None? then Some(Timeout)
    else if |reply.value| < 6 then Some(WriteError)
    else if reply.value[3] == NACK then Some(WriteNack)
    else if reply.value[3] != ACK then Some(WriteError)
    else None
  }

  /** What was read while waiting for the answer to q: the reply last, or only damaged frames and echoes. */
  ghost predicate Listened(before: seq<Heard>, after: seq<Heard>, format: Format, q: seq<byte>,
                           reply: Option<seq<byte>>) {
    && before <= after
    && if reply.Some? then
         && format.Valid(reply.value) && reply.value != q
         && before < after && after[|after| - 1] == Heard(q, reply.value)
       else before < after ==>
         var h := after[|after| - 1]; h.request == q && (!format.Valid(h.frame) || h.frame == q)
  }

  /** What a request does: it arrives if the script says so and the node is there, and only then it is
      carried out; nothing else changes but for new events. */
  ghost predicate Exchanged(w: Request, executed: bool, t0: map<byte, Tables>, t1: map<byte, Tables>,
                            f0: map<byte, Fifo>, f1: map<byte, Fifo>, w0: seq<Request>, w1: seq<Request>,
                            s0: seq<Turn>, s1: seq<Turn>)
  {
    && (executed <==> NextTurn(s0).reached && w.node in t0)
    && (w.node in t0 ==> t0[w.node].WellFormed())
    && t1 == (if executed then t0[w.node := Execute(t0[w.node], w.cmd, w.data)] else t0)
    && w1 == w0 + (if IsWrite(w.cmd) then [w] else [])
    && FifosAfter(f0, f1, w.node, executed && w.cmd == REMOVE_EVENT)
    && (NextTurn(s0).arrivals == [] ==> f1 == Quietly(f0, w.node, executed && w.cmd == REMOVE_EVENT))
    && s1 == LaterTurns(s0)
  }

  /** A request that is no write changes nothing. */
  lemma NothingWritten(w: Request, executed: bool, t0: map<byte, Tables>, t1: map<byte, Tables>, f0: map<byte, Fifo>,
                       f1: map<byte, Fifo>, w0: seq<Request>, w1: seq<Request>, s0: seq<Turn>, s1: seq<Turn>)
    requires Exchanged(w, executed, t0, t1, f0, f1, w0, w1, s0, s1) && !IsWrite(w.cmd)
    ensures t1 == t0 && w1 == w0 && Grown(f0, f1) && s1 == LaterTurns(s0)
    ensures NextTurn(s0).arrivals == [] ==> f1 == f0
  {
  }

  lemma BuiltRequest(format: Format, node: byte, cmd: byte, data: seq<byte>)
    requires |data| <= 251
    ensures var q := format.Build(node, cmd, data);
            format.Valid(q) && format.Parse(q) == Request(node, cmd, data)
  {
    if format == Standard {
      FrameIsValid(node, cmd, data);
      FrameParts(node, cmd, data);
    } else {
      ExtendedFrameIsValid(node, cmd, data);
      ExtendedFrameParts(node, cmd, data);
    }
  }

  // ---- what was heard ----

  function RecordRequest(format: Format, node: byte, a: nat): seq<byte>
    requires a < 65536
  {
    format.Build(node, GET_USER, AddressBytes(a) + [0x01])
  }

  /** The last frame read is an accepted answer to a 87H in this format. */
  ghost predicate RecordHeard(heard: seq<Heard>, format: Format, node: byte, a: nat)
    requires a < 65536
  {
    && heard != []
    && var h := heard[|heard| - 1];
    && h.request == RecordRequest(format, node, a) && h.frame != h.request && CarriesRecord(format, h.frame)
  }

  /** An answer to a 87H that is taken for a record. */
  predicate CarriesRecord(format: Format, r: seq<byte>) {
    && format.Valid(r)
    && |r| >= format.Header() + 5 && r[format.Header() + 1] != NACK && r[format.Header() + 1] == DATA_ECHO
  }

  function RecordIn(format: Format, r: seq<byte>): seq<byte>
    requires CarriesRecord(format, r)
  {
    r[format.Header() + 3..|r| - 2]
  }

  /** Or in either format. */
  ghost predicate UserHeard(before: seq<Heard>, heard: seq<Heard>, node: byte, a: nat)
    requires a < 65536
  {
    before < heard && (RecordHeard(heard, Standard, node, a) || RecordHeard(heard, Extended, node, a))
  }

  /** The last frame read acknowledges q. */
  ghost predicate Acked(heard: seq<Heard>, q: seq<byte>) {
    && heard != []
    && var h := heard[|heard| - 1];
    && h.request == q && h.frame != q && ValidFrame(h.frame) && |h.frame| >= 6 && h.frame[3] == ACK
  }

  function SetRequest(node: byte, a: nat, record: seq<byte>): seq<byte>
    requires a < 65536
  {
    Frame(node, SET_USER, AddressBytes(a) + record)
  }

  /** An acknowledgement of the 83H was read, and then an answer to a 87H. */
  ghost predicate ReadBack(before: seq<Heard>, heard: seq<Heard>, node: byte, a: nat, record: seq<byte>)
    requires a < 65536
  {
    exists k: nat ::
      |before| < k < |heard| && Acked(heard[..k], SetRequest(node, a, record)) && UserHeard(heard[..k], heard, node, a)
  }

  function EepromRequest(node: byte, a: nat, length: byte): seq<byte>
    requires a < 65536
  {
    Frame(node, READ_EEPROM, AddressBytes(a) + [length])
  }

  /** An answer to a 12H that is taken for this many bytes. */
  predicate CarriesBytes(r: seq<byte>, length: byte) {
    ValidFrame(r) && r[3] != NACK && (r[3] == EEPROM_DATA || r[3] == DATA_ECHO) && |r| >= 7 && |r| - 7 >= length
  }

  /** The last frame read is an accepted answer to a 12H for this many bytes. */
  ghost predicate EepromHeard(before: seq<Heard>, heard: seq<Heard>, node: byte, a: nat, length: byte)
    requires a < 65536
  {
    && before < heard
    && var h := heard[|heard| - 1];
    && h.request == EepromRequest(node, a, length) && h.frame != h.request && CarriesBytes(h.frame, length)
  }

  lemma TruthfulBytes(t: Tables, fifo: Fifo, executed: bool, a: nat, length: byte, r: seq<byte>)
    requires t.WellFormed() && WritableRange(a, length) && CarriesBytes(r, length)
    requires Truthful(Standard, t, fifo, executed, READ_EEPROM, AddressBytes(a) + [length], r)
    ensures r[5..5 + length] == t.eeprom[a..a + length]
  {
    var data := AddressBytes(a) + [length];
    assert Word(data[0], data[1]) == a && data[2] == length && |data| == 3;
    assert Min(|r| - 7, length) == length;
  }

  lemma TruthfulRecord(format: Format, t: Tables, fifo: Fifo, executed: bool, a: nat, r: seq<byte>)
    requires t.WellFormed() && a < SLOTS && CarriesRecord(format, r)
    requires Truthful(format, t, fifo, executed, GET_USER, AddressBytes(a) + [0x01], r)
    ensures RecordIn(format, r) == t.slots[a]
  {
    var data := AddressBytes(a) + [0x01];
    assert Word(data[0], data[1]) == a && |data| == 3;
  }

  lemma RequestsDiffer(node: byte, a: nat, b: nat, record: seq<byte>)
    requires a < SLOTS && b < SLOTS
    ensures RecordRequest(Standard, node, a) != RecordRequest(Extended, node, a)
    ensures SetRequest(node, b, record) != RecordRequest(Standard, node, a)
    ensures SetRequest(node, b, record) != RecordRequest(Extended, node, a)
  {
    assert RecordRequest(Standard, node, a)[0] == START && SetRequest(node, b, record)[0] == START;
    assert RecordRequest(Standard, node, a)[3] == GET_USER && SetRequest(node, b, record)[3] == SET_USER;
    ExtendedFrameParts(node, GET_USER, AddressBytes(a) + [0x01]);
    assert RecordRequest(Extended, node, a)[0] == MAGIC[0];
  }

  /** The acknowledgement, if any, ends the first exchange, and the read-back the second. */
  lemma ReadBackParts(before: seq<Heard>, mid: seq<Heard>, heard: seq<Heard>, node: byte, a: nat, record: seq<byte>)
    requires a < SLOTS && before <= mid <= heard
    requires before < mid ==> mid[|mid| - 1].request == SetRequest(node, a, record)
    requires mid < heard ==> before < mid && Acked(mid, SetRequest(node, a, record))
    ensures ReadBack(before, heard, node, a, record) <==>
      before < mid && Acked(mid, SetRequest(node, a, record)) && UserHeard(mid, heard, node, a)
  {
    RequestsDiffer(node, a, a, record);
    if before < mid && UserHeard(mid, heard, node, a) {
      assert heard[..|mid|] == mid;
    }
  }

  // ---- a line that works ----

  /** The answers of a controller: an acknowledgement, a record, bytes of its EEPROM. */
  function AckAnswer(node: byte): seq<byte> {
    Frame(0, ACK, [node])
  }

  function RecordAnswer(node: byte, record: seq<byte>): seq<byte> {
    Frame(0, DATA_ECHO, [node] + record)
  }

  function EepromAnswer(node: byte, bytes: seq<byte>): seq<byte> {
    Frame(0, EEPROM_DATA, [node] + bytes)
  }

  lemma EepromAnswerFits(node: byte, t: Tables, fifo: Fifo, executed: bool, a: nat, length: byte)
    requires t.WellFormed() && WritableRange(a, length)
    ensures var r := EepromAnswer(node, t.eeprom[a..a + length]);
            && CarriesBytes(r, length) && r != EepromRequest(node, a, length)
            && Truthful(Standard, t, fifo, executed, READ_EEPROM, AddressBytes(a) + [length], r)
  {
    var bytes, data := t.eeprom[a..a + length], AddressBytes(a) + [length];
    FrameIsValid(0, EEPROM_DATA, [node] + bytes);
    FrameParts(0, EEPROM_DATA, [node] + bytes);
    FrameParts(node, READ_EEPROM, data);
    var r := EepromAnswer(node, bytes);
    assert r[5..5 + length] == r[4..|r| - 2][1..];
    assert Word(data[0], data[1]) == a && data[2] == length;
  }

  lemma AnswersFit(node: byte, record: seq<byte>)
    requires |record| <= MAX_RECORD
    ensures var r := RecordAnswer(node, record);
            ValidFrame(r) && |r| >= 7 && r[3] == DATA_ECHO && r[5..|r| - 2] == record
    ensures ValidFrame(AckAnswer(node)) && |AckAnswer(node)| >= 6 && AckAnswer(node)[3] == ACK
  {
    FrameIsValid(0, DATA_ECHO, [node] + record);
    FrameParts(0, DATA_ECHO, [node] + record);
    FrameIsValid(0, ACK, [node]);
    FrameParts(0, ACK, [node]);
    var r := RecordAnswer(node, record);
    assert r[5..|r| - 2] == r[4..|r| - 2][1..];
  }

  lemma RecordAnswerFits(node: byte, t: Tables, fifo: Fifo, executed: bool, a: nat)
    requires t.WellFormed() && a < SLOTS
    ensures var r := RecordAnswer(node, t.slots[a]);
            && CarriesRecord(Standard, r) && r != RecordRequest(Standard, node, a)
            && Truthful(Standard, t, fifo, executed, GET_USER, AddressBytes(a) + [0x01], r)
  {
    AnswersFit(node, t.slots[a]);
    NoEcho(node, a, t.slots[a], []);
    var data := AddressBytes(a) + [0x01];
    assert Word(data[0], data[1]) == a && |data| == 3;
  }

  lemma NoEcho(node: byte, a: nat, record: seq<byte>, more: seq<byte>)
    requires a < 65536
    ensures RecordAnswer(node, record) != RecordRequest(Standard, node, a)
    ensures AckAnswer(node) != SetRequest(node, a, more)
  {
    FrameParts(0, DATA_ECHO, [node] + record);
    FrameParts(node, GET_USER, AddressBytes(a) + [0x01]);
    FrameParts(0, ACK, [node]);
    FrameParts(node, SET_USER, AddressBytes(a) + more);
  }

  /** The next two turns carry out a write and confirm it. */
  predicate Confirms(script: seq<Turn>, node: byte, record: seq<byte>) {
    && |script| >= 2 && script[0].reached
    && Brings(script, AckAnswer(node)) && Brings(script[1..], RecordAnswer(node, record))
  }

  /** The next two turns carry out an EEPROM write and read the bytes back. */
  predicate ConfirmsBytes(script: seq<Turn>, node: byte, bytes: seq<byte>) {
    && |script| >= 2 && script[0].reached
    && Brings(script, AckAnswer(node)) && Brings(script[1..], EepromAnswer(node, bytes))
  }

  lemma WrittenBytes(t: Tables, a: nat, bytes: seq<byte>)
    requires t.WellFormed() && WritableRange(a, |bytes|)
    ensures Execute(t, WRITE_EEPROM, AddressBytes(a) + [|bytes|] + bytes) == t.WithEeprom(a, bytes)
    ensures t.WithEeprom(a, bytes).eeprom[a..a + |bytes|] == bytes
  {
    assert (AddressBytes(a) + [|bytes|] + bytes)[3..] == bytes;
  }

  lemma OneByte(bytes: seq<byte>, a: nat)
    requires a < |bytes|
    ensures bytes[a..a + 1] == [bytes[a]]
  {
  }

  lemma FunctionsData(b: byte)
    ensures AddressBytes(ASSIGNED_FUNCTIONS) + [1] + [b] == [0, ASSIGNED_FUNCTIONS, 1, b]
  {
  }

  lemma NoEchoOfBytes(node: byte, data: seq<byte>)
    ensures AckAnswer(node) != Frame(node, WRITE_EEPROM, data)
  {
    FrameParts(0, ACK, [node]);
    FrameParts(node, WRITE_EEPROM, data);
  }

  /** The next three turns read a slot, overwrite it and confirm that. */
  predicate Serves(script: seq<Turn>, node: byte, slot: seq<byte>, record: seq<byte>) {
    Brings(script, RecordAnswer(node, slot)) && Confirms(script[1..], node, record)
  }

  /** The answer to a 25H: the oldest event, or something too short to be one. */
  function EventAnswer(node: byte, fifo: Fifo): seq<byte> {
    if fifo.Empty() then AckAnswer(node) else fifo.queued[fifo.removed]
  }

  /** The next turn brings back that answer, and no event comes in meanwhile. */
  predicate Offers(script: seq<Turn>, node: byte, fifo: Fifo) {
    && Brings(script, EventAnswer(node, fifo)) && script[0].arrivals == []
    && (!fifo.Empty() ==> ValidFrame(EventAnswer(node, fifo)) && |EventAnswer(node, fifo)| >= EVENT_LENGTH)
  }

  /** The next turn carries out a removal and confirms it, and no event comes in meanwhile. */
  predicate Removes(script: seq<Turn>, node: byte) {
    Brings(script, AckAnswer(node)) && script[0].arrivals == [] && script[0].reached
  }

  lemma EventAnswerFits(t: Tables, node: byte, fifo: Fifo, executed: bool)
    requires !fifo.Empty() ==> ValidFrame(EventAnswer(node, fifo)) && |EventAnswer(node, fifo)| >= EVENT_LENGTH
    ensures var r := EventAnswer(node, fifo);
            && ValidFrame(r) && r != Frame(node, GET_EVENT, []) && (|r| < EVENT_LENGTH <==> fifo.Empty())
            && Truthful(Standard, t, fifo, executed, GET_EVENT, [], r)
  {
    FrameIsValid(0, ACK, [node]);
    FrameParts(0, ACK, [node]);
    FrameParts(node, GET_EVENT, []);
  }

  lemma RemovalAnswerFits(t: Tables, node: byte, fifo: Fifo)
    ensures var r := AckAnswer(node);
            && ValidFrame(r) && |r| >= 6 && r[3] != NACK && r != Frame(node, REMOVE_EVENT, [])
            && Truthful(Standard, t, fifo, true, REMOVE_EVENT, [], r)
  {
    FrameIsValid(0, ACK, [node]);
    FrameParts(0, ACK, [node]);
    FrameParts(node, REMOVE_EVENT, []);
  }

  /** The zone that is taken from the slot as it was read is the one to keep. */
  lemma KeptZone(slot: seq<byte>, zone: byte)
    requires var before := DecodeRecord(slot);
             && before.ok
             && zone == if before.present && |before.rawRecord| == H_RECORD && before.rawRecord[7] <= LAST_ZONE
                        then before.rawRecord[7] else DEFAULT_ZONE
    ensures zone == ZoneFor(slot)
  {
  }

  class Unex721Protocol {
    const bus: Bus

    constructor (bus: Bus)
      ensures this.bus == bus
    {
      this.bus := bus;
    }

    /** Up to three frames are read: the first valid one that is no echo of q is the reply. */
    method AwaitReply(format: Format, q: seq<byte>) returns (reply: Option<seq<byte>>)
      requires bus.asked == q
      modifies bus`inbox, bus`heard
      ensures Listened(old(bus.heard), bus.heard, format, q, reply)
      ensures reply.Some? ==> reply.value in old(bus.inbox)
      ensures var frames := old(bus.inbox);
              frames != [] && format.Valid(frames[0]) && frames[0] != q ==> reply == Some(frames[0])
    {
      var attempt := 0;
      while attempt < 3
        invariant bus.asked == q && Listened(old(bus.heard), bus.heard, format, q, None)
        invariant forall r :: r in bus.inbox ==> r in old(bus.inbox)
        invariant attempt == 0 ==> bus.inbox == old(bus.inbox)
        invariant attempt > 0 ==>
          old(bus.inbox) != [] && (!format.Valid(old(bus.inbox)[0]) || old(bus.inbox)[0] == q)
      {
        ghost var inbox := bus.inbox;
        var r := bus.ReadFrame();
        if r == [] {
          return None;
        }
        assert r in inbox;
        if format.Valid(r) && r != q {
          return Some(r);
        }
        attempt := attempt + 1;
      }
      reply := None;
    }

    /** Sends a request. */
    method Ask(format: Format, node: byte, cmd: byte, data: seq<byte>) returns (sent: bool, ghost executed: bool)
      requires bus.Valid()
      requires |data| <= 251
      modifies bus`tables, bus`fifos, bus`inbox, bus`script, bus`asked, bus`writes
      ensures bus.Valid() && bus.asked == format.Build(node, cmd, data)
      ensures Exchanged(Request(node, cmd, data), executed, old(bus.tables), bus.tables, old(bus.fifos), bus.fifos,
                        old(bus.writes), bus.writes, old(bus.script), bus.script)
      ensures forall r :: r in bus.inbox && format.Valid(r) && r != format.Build(node, cmd, data) ==>
        bus.Answers(format, Request(node, cmd, data), executed, r)
      ensures forall r ::
        (Brings(old(bus.script), r) && format.Valid(r)
         && bus.Answers(format, Request(node, cmd, data), executed, r)) ==>
          sent && bus.inbox == [r]
    {
      BuiltRequest(format, node, cmd, data);
      sent, executed := bus.WriteAll(format, format.Build(node, cmd, data));
    }

    /** Sends a request and waits for its answer, past damaged frames and echoes. */
    method Transact(format: Format, node: byte, cmd: byte, data: seq<byte>)
      returns (reply: Option<seq<byte>>, ghost executed: bool)
      requires bus.Valid()
      requires |data| <= 251
      modifies bus
      ensures bus.Valid()
      ensures Exchanged(Request(node, cmd, data), executed, old(bus.tables), bus.tables, old(bus.fifos), bus.fifos,
                        old(bus.writes), bus.writes, old(bus.script), bus.script)
      ensures Listened(old(bus.heard), bus.heard, format, format.Build(node, cmd, data), reply)
      ensures reply.Some? ==>
        format.Valid(reply.value) && bus.Answers(format, Request(node, cmd, data), executed, reply.value)
      ensures forall r ::
        (Brings(old(bus.script), r) && format.Valid(r) && r != format.Build(node, cmd, data)
         && bus.Answers(format, Request(node, cmd, data), executed, r)) ==> reply == Some(r)
    {
      var sent;
      sent, executed := Ask(format, node, cmd, data);
      reply := None;
      if sent {
        reply := AwaitReply(format, format.Build(node, cmd, data));
      }
    }

    /** A 87H and its answer, whatever it is. */
    method QueryRecord(format: Format, node: byte, address: nat) returns (r: Option<seq<byte>>)
      requires bus.Valid() && address < SLOTS
      modifies bus
      ensures bus.Valid() && bus.tables == old(bus.tables) && bus.writes == old(bus.writes)
      ensures Grown(old(bus.fifos), bus.fifos)
      ensures Listened(old(bus.heard), bus.heard, format, RecordRequest(format, node, address), r)
      ensures r.Some? && CarriesRecord(format, r.value) ==>
        node in bus.tables && RecordIn(format, r.value) == bus.tables[node].slots[address]
      ensures bus.script == LaterTurns(old(bus.script))
      ensures format == Standard && node in bus.tables ==>
        var answer := RecordAnswer(node, bus.tables[node].slots[address]);
        Brings(old(bus.script), answer) ==> r == Some(answer)
    {
      ghost var executed;
      r, executed := Transact(format, node, GET_USER, AddressBytes(address) + [0x01]);
      if r.Some? && CarriesRecord(format, r.value) {
        TruthfulRecord(format, bus.tables[node], bus.fifos[node], executed, address, r.value);
      }
      if format == Standard && node in bus.tables {
        RecordAnswerFits(node, bus.tables[node], bus.fifos[node], executed, address);
      }
    }

    /** The record bytes of an accepted 87H answer in one of the two formats. */
    method ReadRecord(format: Format, node: byte, address: nat) returns (record: Option<seq<byte>>)
      requires bus.Valid() && address < SLOTS
      modifies bus
      ensures bus.Valid() && bus.tables == old(bus.tables) && bus.writes == old(bus.writes)
      ensures Grown(old(bus.fifos), bus.fifos)
      ensures record.Some? ==> node in bus.tables && record.value == bus.tables[node].slots[address]
      ensures old(bus.heard) <= bus.heard
      ensures record.Some? <==> old(bus.heard) < bus.heard && RecordHeard(bus.heard, format, node, address)
      ensures old(bus.heard) < bus.heard ==> bus.heard[|bus.heard| - 1].request == RecordRequest(format, node, address)
      ensures bus.script == LaterTurns(old(bus.script))
      ensures format == Standard && node in bus.tables ==>
        Brings(old(bus.script), RecordAnswer(node, bus.tables[node].slots[address])) ==> record.Some?
    {
      if node in bus.tables {
        AnswersFit(node, bus.tables[node].slots[address]);
      }
      var r := QueryRecord(format, node, address);
      record := if r.Some? && CarriesRecord(format, r.value) then Some(RecordIn(format, r.value)) else None;
    }

    /** 87H over the standard frame, then over the extended one. */
    method ReadUser(node: byte, address: int) returns (out: UserReadOutcome)
      requires bus.Valid()
      modifies bus
      ensures bus.Valid() && bus.tables == old(bus.tables) && bus.writes == old(bus.writes)
      ensures Grown(old(bus.fifos), bus.fifos)
      ensures out == NO_READ
           || (0 <= address < SLOTS && node in bus.tables && out == DecodeRecord(bus.tables[node].slots[address]))
      ensures old(bus.heard) <= bus.heard
      ensures if 0 <= address < SLOTS && UserHeard(old(bus.heard), bus.heard, node, address)
              then node in bus.tables && out == DecodeRecord(bus.tables[node].slots[address]) else out == NO_READ
      ensures (0 <= address < SLOTS && node in bus.tables
               && Brings(old(bus.script), RecordAnswer(node, bus.tables[node].slots[address]))) ==>
        out == DecodeRecord(bus.tables[node].slots[address]) && bus.script == old(bus.script)[1..]
    {
      if address < 0 || address >= SLOTS {
        return NO_READ;
      }
      RequestsDiffer(node, address, address, []);
      var record := ReadRecord(Standard, node, address);
      if record.None? {
        label standard:
        record := ReadRecord(Extended, node, address);
        GrownTwice(old(bus.fifos), old@standard(bus.fifos), bus.fifos);
      }
      out := if record.Some? then DecodeRecord(record.value) else NO_READ;
    }

    /** 83H and its acknowledgement. */
    method SendRecord(node: byte, address: nat, record: seq<byte>) returns (failure: Option<Status>)
      requires bus.Valid() && address < SLOTS && |record| == H_RECORD
      modifies bus
      ensures bus.Valid() && Grown(old(bus.fifos), bus.fifos)
      ensures bus.writes == old(bus.writes) + [SetUser(node, address, record)]
      ensures AllOrNothing(old(bus.tables), bus.tables, node, address, record)
      ensures failure.Some? ==> failure.value in {Timeout, WriteError, WriteNack}
      ensures old(bus.heard) <= bus.heard
      ensures failure.None? <==> old(bus.heard) < bus.heard && Acked(bus.heard, SetRequest(node, address, record))
      ensures old(bus.heard) < bus.heard ==> bus.heard[|bus.heard| - 1].request == SetRequest(node, address, record)
      ensures bus.script == LaterTurns(old(bus.script))
      ensures Confirms(old(bus.script), node, record) && node in old(bus.tables) ==>
        failure.None? && SlotHolds(bus.tables, node, address, record)
    {
      AnswersFit(node, record);
      NoEcho(node, address, record, record);
      var ack, executed := Transact(Standard, node, SET_USER, AddressBytes(address) + record);
      assert (AddressBytes(address) + record)[2..] == record;
      failure := AckStatus(ack);
    }

    /** The 87H read-back. */
    method VerifyRecord(node: byte, address: nat, record: seq<byte>) returns (ok: bool)
      requires bus.Valid() && address < SLOTS && |record| == H_RECORD
      modifies bus
      ensures bus.Valid() && Grown(old(bus.fifos), bus.fifos)
      ensures bus.tables == old(bus.tables) && bus.writes == old(bus.writes)
      ensures old(bus.heard) <= bus.heard
      ensures ok <==>
        UserHeard(old(bus.heard), bus.heard, node, address) && SlotHolds(bus.tables, node, address, record)
      ensures Brings(old(bus.script), RecordAnswer(node, record)) && SlotHolds(bus.tables, node, address, record) ==>
        ok && bus.script == old(bus.script)[1..]
    {
      var after := ReadUser(node, address);
      ok := after.ok && |after.rawRecord| == H_RECORD && after.rawRecord == record;
    }

    /** 83H, its acknowledgement, and the 87H read-back: without an acknowledgement there is no read-back,
        and without a read-back of the same record no success. */
    method SetAndVerify(node: byte, address: nat, record: seq<byte>) returns (failure: Option<Status>)
      requires bus.Valid() && address < SLOTS && |record| == H_RECORD
      modifies bus
      ensures bus.Valid() && Grown(old(bus.fifos), bus.fifos)
      ensures bus.writes == old(bus.writes) + [SetUser(node, address, record)]
      ensures AllOrNothing(old(bus.tables), bus.tables, node, address, record)
      ensures failure.None? <==>
        ReadBack(old(bus.heard), bus.heard, node, address, record) && SlotHolds(bus.tables, node, address, record)
      ensures failure.Some? ==> failure.value in {Timeout, WriteError, WriteNack, VerifyFailed} && !Good(failure.value)
      ensures old(bus.heard) <= bus.heard
      ensures Confirms(old(bus.script), node, record) && node in old(bus.tables) ==>
        failure.None? && bus.script == old(bus.script)[2..]
    {
      ghost var h0, f0 := bus.heard, bus.fifos;
      failure := SendRecord(node, address, record);
      ghost var h1, f1 := bus.heard, bus.fifos;
      if failure.None? {
        var ok := VerifyRecord(node, address, record);
        GrownTwice(f0, f1, bus.fifos);
        failure := if ok then None else Some(VerifyFailed);
      }
      ReadBackParts(h0, h1, bus.heard, node, address, record);
    }

    /** Reads the slot for its time zone, then writes and verifies the record. */
    method WriteCredentials(node: byte, address: nat, credentials: seq<byte>) returns (out: Outcome)
      requires bus.Valid() && address < SLOTS && |credentials| == H_RECORD - 1
      modifies bus
      ensures bus.Valid() && Grown(old(bus.fifos), bus.fifos)
      ensures out.ok <==> out.status == WrittenVerified
      ensures out.status in {PrecheckFailed, Timeout, WriteError, WriteNack, VerifyFailed, WrittenVerified}
      ensures out.status == PrecheckFailed ==> bus.tables == old(bus.tables) && bus.writes == old(bus.writes)
      ensures out.status != PrecheckFailed ==>
        && node in old(bus.tables)
        && var record := credentials + [ZoneFor(old(bus.tables)[node].slots[address])];
        && bus.writes == old(bus.writes) + [SetUser(node, address, record)]
        && AllOrNothing(old(bus.tables), bus.tables, node, address, record)
        && (out.ok ==> SlotHolds(bus.tables, node, address, record))
      ensures node in old(bus.tables) ==>
        var slot := old(bus.tables)[node].slots[address];
        (DecodeRecord(slot).ok && Serves(old(bus.script), node, slot, credentials + [ZoneFor(slot)])) ==>
          out.ok && bus.script == old(bus.script)[3..]
    {
      ghost var f0 := bus.fifos;
      var before := ReadUser(node, address);
      if !before.ok {
        return Outcome(false, PrecheckFailed);
      }
      var zone: byte := DEFAULT_ZONE;
      if before.present && |before.rawRecord| == H_RECORD && before.rawRecord[7] <= LAST_ZONE {
        zone := before.rawRecord[7];
      }
      KeptZone(bus.tables[node].slots[address], zone);
      ghost var f1 := bus.fifos;
      var failure := SetAndVerify(node, address, credentials + [zone]);
      GrownTwice(f0, f1, bus.fifos);
      out := if failure.Some? then Outcome(false, failure.value) else Outcome(true, WrittenVerified);
    }

    /** Writes the primary card, PIN and mode of a user, keeping the time zone of the slot. */
    method WriteUser(node: byte, user: User) returns (out: Outcome)
      requires bus.Valid()
      modifies bus
      ensures bus.Valid() && Grown(old(bus.fifos), bus.fifos)
      ensures out.ok <==> out.status == WrittenVerified
      ensures out.ok <==> Good(out.status)
      ensures out.status == Skipped <==> !(0 <= user.controllerPort < SLOTS)
      ensures out.status == InvalidUser <==> 0 <= user.controllerPort < SLOTS && Credentials(user).None?
      ensures out.status in {Skipped, InvalidUser, PrecheckFailed} ==>
        bus.tables == old(bus.tables) && bus.writes == old(bus.writes)
      ensures out.status !in {Skipped, InvalidUser, PrecheckFailed} ==>
        && node in old(bus.tables)
        && var a := user.controllerPort;
        && var record := RecordFor(user, old(bus.tables)[node].slots[a]);
        && bus.writes == old(bus.writes) + [SetUser(node, a, record)]
        && AllOrNothing(old(bus.tables), bus.tables, node, a, record)
        && (out.ok ==> SlotHolds(bus.tables, node, a, record))
      ensures 0 <= user.controllerPort < SLOTS && Credentials(user).Some? && node in old(bus.tables) ==>
        var slot := old(bus.tables)[node].slots[user.controllerPort];
        (DecodeRecord(slot).ok && Serves(old(bus.script), node, slot, RecordFor(user, slot))) ==>
          out.ok && bus.script == old(bus.script)[3..]
    {
      var address := user.controllerPort;
      if address < 0 || address >= SLOTS {
        return Outcome(false, Skipped);
      }
      var credentials := Credentials(user);
      if credentials.None? {
        return Outcome(false, InvalidUser);
      }
      ghost var t0 := bus.tables;
      out := WriteCredentials(node, address, credentials.value);
      if node in t0 {
        assert RecordFor(user, t0[node].slots[address]) == credentials.value + [ZoneFor(t0[node].slots[address])];
      }
    }

    /** Writes eight zeros to a slot, even to one that already reads as zeros. */
    method ClearUserSlot(node: byte, address: int) returns (out: Outcome)
      requires bus.Valid()
      modifies bus
      ensures bus.Valid() && Grown(old(bus.fifos), bus.fifos)
      ensures out.ok <==> out.status == SlotClearedVerified
      ensures out.ok <==> Good(out.status)
      ensures out.status == SlotInvalid <==> !(0 <= address < SLOTS)
      ensures out.status == SlotInvalid ==> bus.tables == old(bus.tables) && bus.writes == old(bus.writes)
      ensures out.status != SlotInvalid ==>
        && bus.writes == old(bus.writes) + [SetUser(node, address, ZEROS)]
        && AllOrNothing(old(bus.tables), bus.tables, node, address, ZEROS)
        && (out.ok ==> SlotHolds(bus.tables, node, address, ZEROS))
      ensures 0 <= address < SLOTS && node in old(bus.tables) && Confirms(old(bus.script), node, ZEROS) ==>
        out.ok && bus.script == old(bus.script)[2..]
    {
      if address < 0 || address >= SLOTS {
        return Outcome(false, SlotInvalid);
      }
      var failure := SetAndVerify(node, address, ZEROS);
      out := if failure.Some? then Outcome(false, failure.value) else Outcome(true, SlotClearedVerified);
    }

    /** Sets the mode of the user's slot to Invalid and changes no other byte of it. */
    method DeleteUser(node: byte, user: User) returns (out: Outcome)
      requires bus.Valid()
      modifies bus
      ensures bus.Valid() && Grown(old(bus.fifos), bus.fifos)
      ensures out.ok <==> out.status in {AlreadyInvalid, InvalidatedVerified}
      ensures out.ok <==> Good(out.status)
      ensures out.status == Skipped <==> !(0 <= user.controllerPort < SLOTS)
      ensures out.status in {Skipped, PrecheckFailed, UnsupportedRecord, AlreadyInvalid} ==>
        bus.tables == old(bus.tables) && bus.writes == old(bus.writes)
      ensures out.status == UnsupportedRecord ==>
        node in bus.tables && |bus.tables[node].slots[user.controllerPort]| != H_RECORD
      ensures out.status !in {Skipped, PrecheckFailed, UnsupportedRecord, AlreadyInvalid} ==>
        && node in old(bus.tables)
        && var a := user.controllerPort;
        && var was := old(bus.tables)[node].slots[a];
        && |was| == H_RECORD && was[6] != 0
        && bus.writes == old(bus.writes) + [SetUser(node, a, Disabled(was))]
        && AllOrNothing(old(bus.tables), bus.tables, node, a, Disabled(was))
      ensures out.ok ==>
        && node in old(bus.tables)
        && var was := old(bus.tables)[node].slots[user.controllerPort];
        && |was| == H_RECORD && SlotHolds(bus.tables, node, user.controllerPort, Disabled(was))
      ensures 0 <= user.controllerPort < SLOTS && node in old(bus.tables) ==>
        var was := old(bus.tables)[node].slots[user.controllerPort];
        (|was| == H_RECORD && Brings(old(bus.script), RecordAnswer(node, was))) ==>
          if was[6] == 0 then out.status == AlreadyInvalid && bus.script == old(bus.script)[1..]
          else Confirms(old(bus.script)[1..], node, Disabled(was)) ==> out.ok && bus.script == old(bus.script)[3..]
    {
      var address := user.controllerPort;
      if address < 0 || address >= SLOTS {
        return Outcome(false, Skipped);
      }
      ghost var f0 := bus.fifos;
      var before := ReadUser(node, address);
      if !before.ok {
        return Outcome(false, PrecheckFailed);
      }
      if |before.rawRecord| != H_RECORD {
        return Outcome(false, UnsupportedRecord);
      }
      if before.rawRecord[6] == 0 {
        assert Disabled(before.rawRecord) == before.rawRecord;
        return Outcome(true, AlreadyInvalid);
      }
      ghost var f1 := bus.fifos;
      var failure := SetAndVerify(node, address, Disabled(before.rawRecord));
      GrownTwice(f0, f1, bus.fifos);
      out := if failure.Some? then Outcome(false, failure.value) else Outcome(true, InvalidatedVerified);
    }

    /** A 12H and its answer, whatever it is. */
    method QueryEeprom(node: byte, address: nat, length: byte) returns (r: Option<seq<byte>>)
      requires bus.Valid() && WritableRange(address, length)
      modifies bus
      ensures bus.Valid() && bus.tables == old(bus.tables) && bus.writes == old(bus.writes)
      ensures Grown(old(bus.fifos), bus.fifos)
      ensures Listened(old(bus.heard), bus.heard, Standard, EepromRequest(node, address, length), r)
      ensures r.Some? && CarriesBytes(r.value, length) ==>
        node in bus.tables && r.value[5..5 + length] == bus.tables[node].eeprom[address..address + length]
      ensures bus.script == LaterTurns(old(bus.script))
      ensures node in bus.tables ==>
        var answer := EepromAnswer(node, bus.tables[node].eeprom[address..address + length]);
        Brings(old(bus.script), answer) ==> r == Some(answer)
    {
      ghost var executed;
      ghost var t0, f0, w0, s0 := bus.tables, bus.fifos, bus.writes, bus.script;
      r, executed := Transact(Standard, node, READ_EEPROM, AddressBytes(address) + [length]);
      NothingWritten(Request(node, READ_EEPROM, AddressBytes(address) + [length]), executed, t0, bus.tables,
                     f0, bus.fifos, w0, bus.writes, s0, bus.script);
      if r.Some? && CarriesBytes(r.value, length) {
        TruthfulBytes(bus.tables[node], bus.fifos[node], executed, address, length, r.value);
      }
      if node in bus.tables {
        EepromAnswerFits(node, bus.tables[node], bus.fifos[node], executed, address, length);
      }
    }

    /** 12H: up to 240 bytes of EEPROM. */
    method ReadEeprom(node: byte, address: int, length: int) returns (data: Option<seq<byte>>)
      requires bus.Valid()
      modifies bus
      ensures bus.Valid() && bus.tables == old(bus.tables) && bus.writes == old(bus.writes)
      ensures Grown(old(bus.fifos), bus.fifos)
      ensures data.Some? ==>
        && 0 <= address && 1 <= length <= 240 && address + length <= EEPROM_SIZE
        && node in bus.tables
        && data.value == bus.tables[node].eeprom[address..address + length]
      ensures old(bus.heard) <= bus.heard
      ensures data.Some? <==>
        0 <= address && 1 <= length <= 240 && address + length <= EEPROM_SIZE
        && EepromHeard(old(bus.heard), bus.heard, node, address, length)
      ensures 0 <= address && 1 <= length <= 240 && address + length <= EEPROM_SIZE && node in bus.tables ==>
        Brings(old(bus.script), EepromAnswer(node, bus.tables[node].eeprom[address..address + length])) ==>
          data.Some? && bus.script == old(bus.script)[1..]
    {
      if address < 0 || address > 0xFFFF || length < 1 || length > 240 || address + length - 1 > 0xFFFF {
        return None;
      }
      if node in bus.tables {
        EepromAnswerFits(node, bus.tables[node], bus.fifos[node], false, address, length);
      }
      var r := QueryEeprom(node, address, length);
      data := if r.Some? && CarriesBytes(r.value, length) then Some(r.value[5..5 + length]) else None;
    }

    /** 20H and its acknowledgement. */
    method SendBytes(node: byte, address: nat, bytes: seq<byte>) returns (acked: bool)
      requires bus.Valid() && WritableRange(address, |bytes|)
      modifies bus
      ensures bus.Valid() && Grown(old(bus.fifos), bus.fifos)
      ensures EepromAllOrNothing(old(bus.tables), bus.tables, node, address, bytes)
      ensures bus.writes == old(bus.writes) + [Request(node, WRITE_EEPROM, AddressBytes(address) + [|bytes|] + bytes)]
      ensures bus.script == LaterTurns(old(bus.script))
      ensures ConfirmsBytes(old(bus.script), node, bytes) && node in old(bus.tables) ==>
        acked && node in bus.tables && bus.tables[node].eeprom[address..address + |bytes|] == bytes
    {
      if node in bus.tables {
        WrittenBytes(bus.tables[node], address, bytes);
      }
      AnswersFit(node, []);
      NoEchoOfBytes(node, AddressBytes(address) + [|bytes|] + bytes);
      var r, executed := Transact(Standard, node, WRITE_EEPROM, AddressBytes(address) + [|bytes|] + bytes);
      acked := !(r.None? || |r.value| < 6 || r.value[3] == NACK || r.value[3] != ACK);
    }

    /** 20H, its acknowledgement, and the 12H read-back that alone decides. */
    method WriteEeprom(node: byte, address: int, bytes: seq<byte>) returns (ok: bool)
      requires bus.Valid()
      modifies bus
      ensures bus.Valid() && Grown(old(bus.fifos), bus.fifos)
      ensures EepromAllOrNothing(old(bus.tables), bus.tables, node, address, bytes)
      ensures ok ==>
        && WritableRange(address, |bytes|)
        && node in bus.tables
        && bus.tables[node].eeprom[address..address + |bytes|] == bytes
      ensures bus.writes == if WritableRange(address, |bytes|)
        then old(bus.writes) + [Request(node, WRITE_EEPROM, AddressBytes(address) + [|bytes|] + bytes)] else old(bus.writes)
      ensures (WritableRange(address, |bytes|) && node in old(bus.tables)
               && ConfirmsBytes(old(bus.script), node, bytes)) ==>
        ok && bus.script == old(bus.script)[2..]
    {
      if address < 0 || address > 0xFFFF || bytes == [] || |bytes| > 240 || address + |bytes| - 1 > 0xFFFF {
        return false;
      }
      ghost var f0 := bus.fifos;
      var acked := SendBytes(node, address, bytes);
      if !acked {
        return false;
      }
      ghost var f1 := bus.fifos;
      var got := ReadEeprom(node, address, |bytes|);
      GrownTwice(f0, f1, bus.fifos);
      ok := got == Some(bytes);
    }

    /** Writes the byte with the bit cleared. */
    method RewriteFunctions(node: byte, was: byte) returns (out: Outcome)
      requires bus.Valid() && node in bus.tables && bus.tables[node].eeprom[ASSIGNED_FUNCTIONS] == was
      modifies bus
      ensures bus.Valid() && Grown(old(bus.fifos), bus.fifos)
      ensures out.status in {PassAnyWriteFailed, PassAnyDisabled, PassAnyRewrittenDisabled}
      ensures out.ok <==> out.status != PassAnyWriteFailed
      ensures out.ok <==> Good(out.status)
      ensures EepromAllOrNothing(old(bus.tables), bus.tables, node, ASSIGNED_FUNCTIONS, [ClearBit5(was)])
      ensures bus.writes == old(bus.writes) + [Request(node, WRITE_EEPROM, [0, ASSIGNED_FUNCTIONS, 1, ClearBit5(was)])]
      ensures out.ok ==>
        && node in bus.tables
        && bus.tables[node].eeprom[ASSIGNED_FUNCTIONS] == ClearBit5(was)
        && (out.status == PassAnyRewrittenDisabled <==> ClearBit5(was) == was)
      ensures ConfirmsBytes(old(bus.script), node, [ClearBit5(was)]) ==> out.ok && bus.script == old(bus.script)[2..]
    {
      FunctionsData(ClearBit5(was));
      var ok := WriteEeprom(node, ASSIGNED_FUNCTIONS, [ClearBit5(was)]);
      if !ok {
        return Outcome(false, PassAnyWriteFailed);
      }
      OneByte(bus.tables[node].eeprom, ASSIGNED_FUNCTIONS);
      out := Outcome(true, if ClearBit5(was) == was then PassAnyRewrittenDisabled else PassAnyDisabled);
    }

    /** Clears the "any card passes" bit of the assigned functions, and rewrites the byte even when
        the bit is already clear. */
    method DisablePassAnyCards(node: byte) returns (out: Outcome)
      requires bus.Valid()
      modifies bus
      ensures bus.Valid() && Grown(old(bus.fifos), bus.fifos)
      ensures out.ok <==> out.status in {PassAnyDisabled, PassAnyRewrittenDisabled}
      ensures out.ok <==> Good(out.status)
      ensures out.status == PassAnyReadFailed ==> bus.tables == old(bus.tables) && bus.writes == old(bus.writes)
      ensures out.status != PassAnyReadFailed ==> node in old(bus.tables)
      ensures node in old(bus.tables) ==>
        var was := old(bus.tables)[node].eeprom[ASSIGNED_FUNCTIONS];
        && EepromAllOrNothing(old(bus.tables), bus.tables, node, ASSIGNED_FUNCTIONS, [ClearBit5(was)])
        && (out.status != PassAnyReadFailed ==>
            bus.writes == old(bus.writes) + [Request(node, WRITE_EEPROM, [0, ASSIGNED_FUNCTIONS, 1, ClearBit5(was)])])
        && (out.ok ==>
            && node in bus.tables
            && bus.tables[node].eeprom[ASSIGNED_FUNCTIONS] == ClearBit5(was)
            && (out.status == PassAnyRewrittenDisabled <==> ClearBit5(was) == was))
      ensures node in old(bus.tables) ==>
        var was := old(bus.tables)[node].eeprom[ASSIGNED_FUNCTIONS];
        (Brings(old(bus.script), EepromAnswer(node, [was]))
         && ConfirmsBytes(old(bus.script)[1..], node, [ClearBit5(was)])) ==>
          out.ok && bus.script == old(bus.script)[3..]
    {
      ghost var f0 := bus.fifos;
      if node in bus.tables {
        OneByte(bus.tables[node].eeprom, ASSIGNED_FUNCTIONS);
      }
      var before := ReadEeprom(node, ASSIGNED_FUNCTIONS, 1);
      if before.None? || |before.value| != 1 {
        return Outcome(false, PassAnyReadFailed);
      }
      ghost var f1 := bus.fifos;
      out := RewriteFunctions(node, before.value[0]);
      GrownTwice(f0, f1, bus.fifos);
    }

    /** 25H: the oldest event, or nothing when a valid answer is too short to hold one. A short answer
        that is no NACK shows an empty queue; a NACK shows nothing, and is taken for the same. */
    method GetOldestEvent(node: byte) returns (responded: bool, event: Option<seq<byte>>)
      requires bus.Valid()
      modifies bus
      ensures bus.Valid() && bus.tables == old(bus.tables) && bus.writes == old(bus.writes)
      ensures Grown(old(bus.fifos), bus.fifos) && old(bus.heard) <= bus.heard
      ensures event.Some? ==>
        && responded && node in bus.fifos && !bus.fifos[node].Empty()
        && event.value == bus.fifos[node].queued[bus.fifos[node].removed]
        && ValidFrame(event.value) && |event.value| >= EVENT_LENGTH
      ensures responded && event.None? <==> old(bus.heard) < bus.heard && ShortRead(bus.heard, node)
      ensures responded && event.None? && !Refused(bus.heard, node) ==> node in bus.fifos && bus.fifos[node].Empty()
      ensures event.Some? ==> !ShortRead(bus.heard, node)
      ensures Refuses(old(bus.script)) && node in old(bus.tables) ==> responded && event.None? && Refused(bus.heard, node)
      ensures node in old(bus.fifos) && Offers(old(bus.script), node, old(bus.fifos)[node]) ==>
        && responded && bus.fifos == old(bus.fifos) && bus.script == old(bus.script)[1..]
        && event == if bus.fifos[node].Empty() then None else Some(bus.fifos[node].queued[bus.fifos[node].removed])
    {
      EventRequest(node, []);
      ghost var executed;
      ghost var t0, f0, w0, s0 := bus.tables, bus.fifos, bus.writes, bus.script;
      var r;
      r, executed := Transact(Standard, node, GET_EVENT, []);
      NothingWritten(Request(node, GET_EVENT, []), executed, t0, bus.tables, f0, bus.fifos, w0, bus.writes,
                     s0, bus.script);
      if node in f0 && Offers(s0, node, f0[node]) {
        EventAnswerFits(bus.tables[node], node, bus.fifos[node], executed);
        assert r == Some(EventAnswer(node, bus.fifos[node]));
      }
      responded := r.Some?;
      event := if r.None? || |r.value| < EVENT_LENGTH then None else r;
    }

    /** 37H: removes the oldest event. A lost answer leaves it open whether it was removed. */
    method RemoveOldestEvent(node: byte) returns (removed: bool, ghost executed: bool)
      requires bus.Valid()
      modifies bus
      ensures bus.Valid() && bus.tables == old(bus.tables)
      ensures bus.writes == old(bus.writes) + [Request(node, REMOVE_EVENT, [])]
      ensures FifosAfter(old(bus.fifos), bus.fifos, node, executed)
      ensures removed ==> executed
      ensures old(bus.heard) <= bus.heard
      ensures removed || old(bus.heard) < bus.heard ==> !ShortRead(bus.heard, node)
      ensures node in old(bus.fifos) && Removes(old(bus.script), node) ==>
        && removed && bus.script == old(bus.script)[1..]
        && bus.fifos == old(bus.fifos)[node := old(bus.fifos)[node].Pop()]
    {
      EventRequest(node, []);
      ghost var f0, s0 := bus.fifos, bus.script;
      var r;
      r, executed := Transact(Standard, node, REMOVE_EVENT, []);
      if node in f0 && Removes(s0, node) {
        RemovalAnswerFits(bus.tables[node], node, bus.fifos[node]);
        assert r == Some(AckAnswer(node));
      }
      removed := r.Some? && |r.value| >= 6 && r.value[3] != NACK;
    }
  }

  function ServingScript(node: byte, slot: seq<byte>, record: seq<byte>): (script: seq<Turn>)
    ensures Serves(script, node, slot, record)
  {
    [Turn([], true, [RecordAnswer(node, slot)], true), Turn([], true, [AckAnswer(node)], true),
     Turn([], true, [RecordAnswer(node, record)], true)]
  }

  /** Writing succeeds on a line that answers: for every user that can be written and every slot that holds a
      record of a known length. */
  method WriteSucceeds(node: byte, user: User, tables: map<byte, Tables>, fifos: map<byte, Fifo>)
    returns (bus: Bus, out: Outcome)
    requires tables.Keys == fifos.Keys && AllWellFormed(tables) && forall n :: n in fifos ==> fifos[n].WellFormed()
    requires node in tables && 0 <= user.controllerPort < SLOTS && Credentials(user).Some?
    requires DecodeRecord(tables[node].slots[user.controllerPort]).ok
    ensures out == Outcome(true, WrittenVerified)
    ensures SlotHolds(bus.tables, node, user.controllerPort, RecordFor(user, tables[node].slots[user.controllerPort]))
  {
    var slot := tables[node].slots[user.controllerPort];
    bus := new Bus(tables, fifos, ServingScript(node, slot, RecordFor(user, slot)));
    var proto := new Unex721Protocol(bus);
    out := proto.WriteUser(node, user);
  }

  /** Reading and removing an event are two requests, and neither is a NACK. */
  lemma EventRequest(node: byte, data: seq<byte>)
    ensures Frame(node, GET_EVENT, []) != Frame(node, REMOVE_EVENT, [])
    ensures Frame(node, GET_EVENT, data)[3] == GET_EVENT
  {
    assert Frame(node, GET_EVENT, [])[3] == GET_EVENT && Frame(node, REMOVE_EVENT, [])[3] == REMOVE_EVENT;
  }

  ghost predicate EepromAllOrNothing(before: map<byte, Tables>, after: map<byte, Tables>, node: byte, a: int,
                                     bytes: seq<byte>) {
    || after == before
    || (node in before && 0 <= a && a + |bytes| <= |before[node].eeprom|
        && after == before[node := before[node].WithEeprom(a, bytes)])
  }

  lemma GrownTwice(a: map<byte, Fifo>, b: map<byte, Fifo>, c: map<byte, Fifo>)
    requires Grown(a, b) && Grown(b, c)
    ensures Grown(a, c)
  {
    forall n | n in a
      ensures a[n].Becomes(c[n], false)
    {
      assert a[n].Becomes(b[n], false) && b[n].Becomes(c[n], false);
    }
  }
}
