/** How a record read from a controller is compared with the local user of that address. */
module Comparison {
  import opened Bytes
  import opened Wrappers
  import opened Text
  import opened CardText
  import opened Types
  import opened Records
  import opened Normal

  datatype Verdict = Match | Diff | Missing | Unknown | Unverified | Empty | Error

  function DigitPrefix(s: string): (d: string)
    ensures AllDigits(d) && d <= s
    ensures |d| < |s| ==> !IsDigit(s[|d|])
  {
    if s == [] || !IsDigit(s[0]) then [] else [s[0]] + DigitPrefix(s[1..])
  }

  /** stoul into 32 bits: leading white space, a sign, digits up to the first other character; no
      digits or too large a number count as 0. */
  function LocalPin(pin: string): nat {
    var t := TrimLeft(pin);
    var signed := t != [] && (t[0] == '-' || t[0] == '+');
    var d := DigitPrefix(if signed then t[1..] else t);
    if d == [] then 0
    else
      var v := DecimalValue(d);
      if v >= 0x1_0000_0000_0000_0000 then 0
      else if t[0] == '-' then (0x1_0000_0000_0000_0000 - v) % 0x1_0000_0000
      else v % 0x1_0000_0000
  }

  function ModeText(u: User): string {
    if u.accessMode == "" then "card" else u.accessMode
  }

  function ExpectedCards(u: User): seq<string> {
    if u.cards == [] then [u.card] else u.cards
  }

  predicate ExpectsCard(u: User, id: CardId) {
    exists i :: 0 <= i < |ExpectedCards(u)| && ParseCardId(ExpectedCards(u)[i]) == Some(id)
  }

  function Compare(local: Option<User>, got: UserReadOutcome): Verdict {
    if !got.ok then Error
    else if !got.present then
      if local.Some? && local.value.enabled && local.value.card != "" then Missing
      else if local.Some? then Match
      else Empty
    else if local.None? then Unknown
    else if !got.cardKnown then Unverified
    else
      var u := local.value;
      if && ExpectsCard(u, CardId(got.uid1, got.uid2))
         && (!got.detailsKnown || u.enabled == got.enabled)
         && (!got.detailsKnown || LocalPin(u.pinCode) == got.pin)
         && (!got.detailsKnown || ModeText(u) == got.accessMode)
      then Match else Diff
  }

  // ---- the PIN on both ways ----

  lemma {:induction false} DigitPrefixOf(d: string, rest: string)
    requires AllDigits(d) && (rest == [] || !IsDigit(rest[0]))
    ensures DigitPrefix(d + rest) == d
    decreases |d|
  {
    if d != [] {
      assert (d + rest)[1..] == d[1..] + rest;
      DigitPrefixOf(d[1..], rest);
    } else {
      assert d + rest == rest;
    }
  }

  lemma {:induction false} TrimRightSplits(s: string)
    ensures TrimRight(s) <= s
    ensures |TrimRight(s)| < |s| ==> IsSpace(s[|TrimRight(s)|])
    decreases |s|
  {
    if s != [] && IsSpace(s[|s| - 1]) {
      TrimRightSplits(s[..|s| - 1]);
    }
  }

  /** The PIN that is compared is the PIN that was written. */
  lemma PinReadsBack(pin: string)
    requires ParsePin(pin).Some?
    ensures LocalPin(pin) == ParsePin(pin).value
  {
    var t, s := TrimLeft(pin), Trim(pin);
    TrimLeftStart(pin);
    TrimRightSplits(t);
    if s == "" {
      assert t == [];
    } else {
      FourDigits(s);
      var rest := t[|s|..];
      assert t == s + rest;
      DigitPrefixOf(s, rest);
      assert IsDigit(t[0]);
    }
  }

  // ---- words and bytes ----

  lemma WordOfBytes(w: word)
    ensures Word(w / 256, w % 256) == w
  {
  }

  /** The record for card c in place of the primary one. */
  function RecordOf(u: User, c: CardId, pin: word): seq<byte> {
    [c.series / 256, c.series % 256, c.number / 256, c.number % 256, pin / 256, pin % 256, ModeByte(u)]
  }

  lemma DecodedFields(record: seq<byte>, c: CardId, pin: word)
    requires |record| == H_RECORD
    ensures var got := DecodeRecord(record);
            got.uid1 == c.series && got.uid2 == c.number && got.pin == pin <==>
            record[..6] == [c.series / 256, c.series % 256, c.number / 256, c.number % 256, pin / 256, pin % 256]
  {
    WordOfBytes(c.series);
    WordOfBytes(c.number);
    WordOfBytes(pin);
  }

  /** The mode text is one that the record of this user can show. */
  predicate ModeShows(u: User) {
    ValidMode(ModeText(u)) && (u.enabled || ModeText(u) == "card")
  }

  lemma ModeReadsBack(u: User, mode: byte)
    requires mode <= 3
    ensures u.enabled == (mode != 0) && ModeText(u) == ModeFromByte(mode) <==> ModeShows(u) && mode == ModeByte(u)
  {
  }

  /** An occupied slot with a known mode is a match exactly when it is the record of one of the user's
      cards, with the user's PIN and mode. */
  lemma MatchIsRecordOfUser(u: User, record: seq<byte>)
    requires |record| == H_RECORD && !AllZero(record) && record[6] <= 3
    ensures Compare(Some(u), DecodeRecord(record)) == Match <==>
      && ModeShows(u) && LocalPin(u.pinCode) < 65536
      && exists c :: ExpectsCard(u, c) && record[..7] == RecordOf(u, c, LocalPin(u.pinCode))
  {
    var got := DecodeRecord(record);
    var c0 := CardId(got.uid1, got.uid2);
    ModeReadsBack(u, record[6]);
    assert record[..7] == record[..6] + [record[6]];
    if LocalPin(u.pinCode) < 65536 {
      var pin: word := LocalPin(u.pinCode);
      DecodedFields(record, c0, pin);
      if Compare(Some(u), got) == Match {
        assert record[..7] == RecordOf(u, c0, pin);
      }
      if c :| ExpectsCard(u, c) && record[..7] == RecordOf(u, c, pin) {
        assert record[..6] == record[..7][..6];
        assert record[6] == record[..7][6];
        DecodedFields(record, c, pin);
      }
    }
  }

  /** An occupied slot with an unknown mode is a match exactly when its card is one of the user's: PIN
      and activity do not count. */
  lemma UnknownModeMatchesByCard(u: User, record: seq<byte>, c: CardId)
    requires |record| == H_RECORD && record[6] > 3
    requires record[..4] == [c.series / 256, c.series % 256, c.number / 256, c.number % 256]
    ensures Compare(Some(u), DecodeRecord(record)) == Match <==> ExpectsCard(u, c)
  {
    WordOfBytes(c.series);
    WordOfBytes(c.number);
    assert record[0] == record[..4][0] && record[1] == record[..4][1];
    assert record[2] == record[..4][2] && record[3] == record[..4][3];
  }

  /** A record of card 1:2 that matches with another PIN: the user has none, the record 1234, and the mode
      byte is 4. */
  lemma UnknownModeAtWork(u: User, card: string)
    requires u.cards == [card] && ParseCardId(card) == Some(CardId(1, 2)) && u.pinCode == ""
    ensures var got := DecodeRecord([0, 1, 0, 2, 4, 210, 4, 1]);
            got.present && got.pin == 1234 && LocalPin(u.pinCode) == 0 && Compare(Some(u), got) == Match
  {
    var record: seq<byte> := [0, 1, 0, 2, 4, 210, 4, 1];
    assert record[6] == 4 && record[..4] == [0, 1, 0, 2];
    assert ExpectedCards(u)[0] == card;
    UnknownModeMatchesByCard(u, record, CardId(1, 2));
  }

  /** What writeUser left is a match exactly when it reads as an empty slot, which it can only for a
      disabled user, or when it can show the mode and the written card is among the cards compared. */
  lemma WrittenIsMatch(u: User, was: seq<byte>)
    requires Credentials(u).Some?
    ensures AllZero(RecordFor(u, was)) ==> !u.enabled
    ensures Compare(Some(u), DecodeRecord(RecordFor(u, was))) == Match <==>
      || AllZero(RecordFor(u, was))
      || (ModeShows(u) && ExpectsCard(u, ParseCardId(PrimaryCard(u)).value))
  {
    var record := RecordFor(u, was);
    var c, pin := ParseCardId(PrimaryCard(u)).value, ParsePin(u.pinCode).value;
    assert record[6] == ModeByte(u);
    PinReadsBack(u.pinCode);
    ModeReadsBack(u, record[6]);
    assert record[..6] == [c.series / 256, c.series % 256, c.number / 256, c.number % 256, pin / 256, pin % 256];
    DecodedFields(record, c, pin);
  }

  /** In particular for every enabled normal user. */
  lemma NormalUserReadsBack(u: User, was: seq<byte>)
    requires Normalized(u) && u.enabled && Credentials(u).Some?
    ensures Compare(Some(u), DecodeRecord(RecordFor(u, was))) == Match
  {
    assert RecordFor(u, was)[6] == ModeByte(u) != 0;
    WrittenIsMatch(u, was);
    assert ParseCardId("").None? by {
      assert Trim("") == "";
    }
    assert PrimaryCard(u) == ExpectedCards(u)[0];
  }

  /** A disabled user who keeps a PIN mode never matches their own record. */
  lemma DisabledPinModeDiffers(u: User, was: seq<byte>)
    requires Credentials(u).Some? && !u.enabled && u.accessMode in {"card_or_pin", "card_and_pin"}
    ensures Compare(Some(u), DecodeRecord(RecordFor(u, was))) == Diff
  {
    var pin := ParsePin(u.pinCode).value;
    assert RecordFor(u, was)[4] == pin / 256 && RecordFor(u, was)[5] == pin % 256;
    WordOfBytes(pin);
    assert pin != 0 && !AllZero(RecordFor(u, was));
    WrittenIsMatch(u, was);
  }
}
