/** What normalising a user record does. */
module Normal {
  import opened Sequences
  import opened Wrappers
  import opened Text
  import opened CardText
  import opened Types

  predicate ValidMode(mode: string) {
    mode in {"card", "card_or_pin", "card_and_pin"}
  }

  predicate ValidPin(pin: string) {
    pin == "" || (|pin| == 4 && AllDigits(pin) && 1 <= DecimalValue(pin) <= 9999)
  }

  // ---- lists without repetition, up to `same` ----

  function AddNew(cards: seq<string>, c: string, same: (string, string) -> bool): seq<string> {
    if exists i :: 0 <= i < |cards| && same(cards[i], c) then cards else cards + [c]
  }

  function Drop(cards: seq<string>, c: string, same: (string, string) -> bool): seq<string> {
    if cards == [] then []
    else
      var rest, last := Drop(cards[..|cards| - 1], c, same), cards[|cards| - 1];
      if same(last, c) then rest else rest + [last]
  }

  /** On these cards, being the same card as c is being spelled like c. */
  ghost predicate Decides(same: (string, string) -> bool, cards: seq<string>, c: string) {
    forall i :: 0 <= i < |cards| ==> (same(cards[i], c) <==> cards[i] == c)
  }

  lemma AddNewMeaning(cards: seq<string>, c: string, same: (string, string) -> bool)
    requires Decides(same, cards, c)
    ensures AddNew(cards, c, same) == if c in cards then cards else cards + [c]
  {
  }

  lemma {:induction false} DropMeaning(cards: seq<string>, c: string, same: (string, string) -> bool)
    requires Decides(same, cards, c) && NoRepeats(cards)
    ensures var d := Drop(cards, c, same);
            && NoRepeats(d) && (forall s :: s in d <==> s in cards && s != c)
            && (if c in cards then |d| == |cards| - 1 else d == cards)
  {
    if cards != [] {
      var n := |cards| - 1;
      DropMeaning(cards[..n], c, same);
      assert cards == cards[..n] + [cards[n]];
      assert cards[n] !in cards[..n];
      assert cards[n] !in Drop(cards[..n], c, same);
    }
  }

  // ---- cards in their canonical spelling ----

  ghost predicate IsCanonical(s: string) {
    exists c: CardId :: s == FormatCardId(c)
  }

  /** Every card in its one spelling, and no card twice. */
  ghost predicate CanonicalCards(cards: seq<string>) {
    (forall s :: s in cards ==> IsCanonical(s)) && NoRepeats(cards)
  }

  lemma CanonicalResult(value: string)
    ensures CanonicalCard(value) == "" || IsCanonical(CanonicalCard(value))
  {
    CanonicalOf(value);
  }

  lemma CanonicalStays(s: string)
    requires IsCanonical(s)
    ensures s != "" && CanonicalCard(s) == s && ParseCardId(s).Some? && FormatCardId(ParseCardId(s).value) == s
  {
    var c :| s == FormatCardId(c);
    CardRoundTrip(c);
    CanonicalOf(s);
  }

  lemma SameCanonical(a: string, b: string)
    requires IsCanonical(a) && IsCanonical(b)
    ensures SameCard(a, b) <==> a == b
  {
    CanonicalStays(a);
    CanonicalStays(b);
  }

  lemma FormatIsInjective(c: CardId, d: CardId)
    requires FormatCardId(c) == FormatCardId(d)
    ensures c == d
  {
    CardRoundTrip(c);
    CardRoundTrip(d);
  }

  lemma SameDecides(cards: seq<string>, c: string)
    requires CanonicalCards(cards) && IsCanonical(c)
    ensures Decides(SameCard, cards, c)
  {
    forall i | 0 <= i < |cards|
      ensures SameCard(cards[i], c) <==> cards[i] == c
    {
      SameCanonical(cards[i], c);
    }
  }

  function AppendUnique(cards: seq<string>, value: string): seq<string> {
    var c := CanonicalCard(value);
    if c == "" then cards else AddNew(cards, c, SameCard)
  }

  function AppendAll(cards: seq<string>, values: seq<string>): seq<string> {
    if values == [] then cards else AppendUnique(AppendAll(cards, values[..|values| - 1]), values[|values| - 1])
  }

  lemma AppendUniqueKeeps(cards: seq<string>, value: string)
    requires CanonicalCards(cards)
    ensures CanonicalCards(AppendUnique(cards, value))
    ensures var c := CanonicalCard(value);
            AppendUnique(cards, value) == if c == "" || c in cards then cards else cards + [c]
  {
    CanonicalResult(value);
    if CanonicalCard(value) != "" {
      SameDecides(cards, CanonicalCard(value));
      AddNewMeaning(cards, CanonicalCard(value), SameCard);
    }
  }

  lemma {:induction false} AppendAllKeeps(values: seq<string>)
    ensures CanonicalCards(AppendAll([], values))
  {
    if values != [] {
      var n := |values| - 1;
      AppendAllKeeps(values[..n]);
      AppendUniqueKeeps(AppendAll([], values[..n]), values[n]);
    }
  }

  lemma AppendLast(values: seq<string>, n: nat, before: seq<string>)
    requires n < |values| && CanonicalCards(values) && before == values[..n]
    ensures CanonicalCards(before) && AppendUnique(before, values[n]) == values[..n + 1]
  {
    assert values[n] in values && values[n] !in before;
    CanonicalPrefix(values, n);
    CanonicalStays(values[n]);
    AppendUniqueKeeps(before, values[n]);
    assert before + [values[n]] == values[..n + 1];
  }

  lemma CanonicalPrefix(values: seq<string>, n: nat)
    requires n <= |values| && CanonicalCards(values)
    ensures CanonicalCards(values[..n])
  {
    assert forall s :: s in values[..n] ==> s in values;
  }

  lemma {:induction false} AppendAllIsIdle(values: seq<string>, n: nat)
    requires n <= |values| && CanonicalCards(values)
    ensures AppendAll([], values[..n]) == values[..n]
  {
    if n > 0 {
      AppendAllIsIdle(values, n - 1);
      AppendLast(values, n - 1, values[..n - 1]);
      assert values[..n][..n - 1] == values[..n - 1];
    }
  }

  // ---- users ----

  /** The first card is mirrored in the single-card fields. */
  function SyncPrimary(u: User): User {
    var c := if u.cards == [] then None else ParseCardId(u.cards[0]);
    if c.None? then u.(card := "", cardSeries := "", cardNumber := "")
    else u.(card := u.cards[0], cardSeries := PrintNat(c.value.series), cardNumber := PrintNat(c.value.number))
  }

  function MergedCards(u: User): seq<string> {
    var listed := AppendAll([], u.cards);
    var parts := if Trim(u.cardSeries) != "" || Trim(u.cardNumber) != "" then ParseCardParts(u.cardSeries, u.cardNumber) else None;
    var withParts := if parts.Some? then AppendUnique(listed, FormatCardId(parts.value)) else listed;
    if Trim(u.card) != "" then AppendUnique(withParts, u.card) else withParts
  }

  function Checked(u: User): User {
    u.(accessMode := if ValidMode(u.accessMode) then u.accessMode else "card",
       pinCode := if ValidPin(u.pinCode) then u.pinCode else "",
       cards := MergedCards(u))
  }

  function Normalize(u: User): User {
    SyncPrimary(Checked(u))
  }

  /** The single-card fields show the first card. */
  ghost predicate Mirrored(u: User) {
    if u.cards == [] then u.card == u.cardSeries == u.cardNumber == ""
    else exists c: CardId ::
      && u.cards[0] == FormatCardId(c)
      && u.card == u.cards[0] && u.cardSeries == PrintNat(c.series) && u.cardNumber == PrintNat(c.number)
  }

  ghost predicate Normalized(u: User) {
    ValidMode(u.accessMode) && ValidPin(u.pinCode) && CanonicalCards(u.cards) && Mirrored(u)
  }

  lemma SyncMirrors(u: User)
    requires CanonicalCards(u.cards)
    ensures Mirrored(SyncPrimary(u))
  {
    if u.cards != [] {
      assert u.cards[0] in u.cards;
      CanonicalStays(u.cards[0]);
    }
  }

  lemma SyncIsIdle(u: User)
    requires Mirrored(u)
    ensures SyncPrimary(u) == u
  {
    if u.cards != [] {
      var c: CardId :| u.cards[0] == FormatCardId(c) && u.cardSeries == PrintNat(c.series) && u.cardNumber == PrintNat(c.number);
      CardRoundTrip(c);
    }
  }

  lemma MergedAreCanonical(u: User)
    ensures CanonicalCards(MergedCards(u))
  {
    var listed := AppendAll([], u.cards);
    AppendAllKeeps(u.cards);
    var parts := ParseCardParts(u.cardSeries, u.cardNumber);
    if parts.Some? {
      AppendUniqueKeeps(listed, FormatCardId(parts.value));
      AppendUniqueKeeps(AppendUnique(listed, FormatCardId(parts.value)), u.card);
    }
    AppendUniqueKeeps(listed, u.card);
  }

  lemma SyncKeeps(u: User)
    requires ValidMode(u.accessMode) && ValidPin(u.pinCode) && CanonicalCards(u.cards)
    ensures Normalized(SyncPrimary(u)) && SyncPrimary(u).id == u.id && SyncPrimary(u).cards == u.cards
  {
    SyncMirrors(u);
  }

  /** Normalising makes a record normal. */
  lemma NormalizeMakesNormal(u: User)
    ensures Normalized(Normalize(u)) && Normalize(u).id == u.id && Normalize(u).cards == MergedCards(u)
  {
    MergedAreCanonical(u);
    SyncKeeps(Checked(u));
  }

  lemma PartsOfPrinted(c: CardId)
    ensures ParseCardParts(PrintNat(c.series), PrintNat(c.number)) == Some(c)
  {
    ParsePrinted(c.series, 65535);
    ParsePrinted(c.number, 65535);
  }

  lemma MergedWithoutCards(u: User)
    requires u.cards == [] && u.card == u.cardSeries == u.cardNumber == ""
    ensures MergedCards(u) == []
  {
    assert Trim("") == "";
  }

  lemma AppendsNothing(cards: seq<string>, card: string)
    requires CanonicalCards(cards) && card in cards
    ensures AppendUnique(cards, card) == cards
  {
    CanonicalStays(card);
    AppendUniqueKeeps(cards, card);
  }

  lemma MergedWithPrimary(u: User, c: CardId)
    requires CanonicalCards(u.cards) && u.cards != [] && u.cards[0] == u.card == FormatCardId(c)
    requires u.cardSeries == PrintNat(c.series) && u.cardNumber == PrintNat(c.number)
    ensures MergedCards(u) == u.cards
  {
    AppendAllIsIdle(u.cards, |u.cards|);
    assert u.cards[..|u.cards|] == u.cards;
    PartsOfPrinted(c);
    assert u.card in u.cards;
    CanonicalStays(u.card);
    AppendsNothing(u.cards, u.card);
  }

  lemma MergedOfNormal(u: User)
    requires Normalized(u)
    ensures MergedCards(u) == u.cards
  {
    if u.cards == [] {
      MergedWithoutCards(u);
    } else {
      var c: CardId :| u.cards[0] == FormatCardId(c) && u.cardSeries == PrintNat(c.series) && u.cardNumber == PrintNat(c.number);
      MergedWithPrimary(u, c);
    }
  }

  /** A normal record is left alone. */
  lemma NormalizeIsIdle(u: User)
    requires Normalized(u)
    ensures Normalize(u) == u
  {
    MergedOfNormal(u);
    SyncIsIdle(u);
  }

  function RemoveCardFrom(u: User, card: string): User {
    var left := Drop(u.cards, card, SameCard);
    if |left| == |u.cards| then u else SyncPrimary(u.(cards := left))
  }

  lemma RemoveCardKeeps(u: User, card: string)
    requires Normalized(u) && IsCanonical(card)
    ensures var r := RemoveCardFrom(u, card);
            && Normalized(r) && r.id == u.id
            && (forall s :: s in r.cards <==> s in u.cards && s != card)
            && (card !in u.cards ==> r == u)
            && (card in u.cards ==> |r.cards| < |u.cards|)
            && |r.cards| <= |u.cards|
  {
    SameDecides(u.cards, card);
    DropMeaning(u.cards, card, SameCard);
    SyncKeeps(u.(cards := Drop(u.cards, card, SameCard)));
  }

  function RemoveCards(u: User, cards: seq<string>): User {
    if cards == [] then u else RemoveCardFrom(RemoveCards(u, cards[..|cards| - 1]), cards[|cards| - 1])
  }

  lemma {:induction false} RemoveCardsKeeps(u: User, cards: seq<string>)
    requires Normalized(u) && CanonicalCards(cards)
    ensures var r := RemoveCards(u, cards);
            && Normalized(r) && r.id == u.id
            && (forall s :: s in r.cards <==> s in u.cards && s !in cards)
            && |r.cards| <= |u.cards|
            && (|r.cards| == |u.cards| ==> r == u)
  {
    if cards != [] {
      var n := |cards| - 1;
      RemoveCardsKeeps(u, cards[..n]);
      RemoveCardKeeps(RemoveCards(u, cards[..n]), cards[n]);
      assert cards == cards[..n] + [cards[n]];
    }
  }
}
