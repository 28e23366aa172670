/** The operations of the user store on its list of users, and the partial map from physical cards
    to users that the list stands for. */
module UserRegistry {
  import opened Wrappers
  import opened Text
  import opened CardText
  import opened Types
  import opened Normal

  // ---- the operations, as functions on the list ----

  function FindId(users: seq<User>, id: int): (k: nat)
    ensures k <= |users|
    ensures k < |users| ==> users[k].id == id
    ensures forall i :: 0 <= i < k ==> users[i].id != id
  {
    if users == [] || users[0].id == id then 0 else 1 + FindId(users[1..], id)
  }

  function MaxId(users: seq<User>): nat {
    if users == [] then 0
    else
      var m, id := MaxId(users[..|users| - 1]), users[|users| - 1].id;
      if id > m then id else m
  }

  /** The record u without these cards, normalised again if it lost one. */
  function Detach(u: User, cards: seq<string>): User {
    var r := RemoveCards(u, cards);
    if |r.cards| == |u.cards| then u else Normalize(r)
  }

  function DetachOthers(users: seq<User>, id: int, cards: seq<string>): seq<User> {
    seq(|users|, i requires 0 <= i < |users| => if users[i].id == id then users[i] else Detach(users[i], cards))
  }

  function Place(users: seq<User>, u: User): seq<User> {
    var k := FindId(users, u.id);
    if k < |users| then users[k := u] else users + [u]
  }

  function Identified(users: seq<User>, u: User): User {
    var n := Normalize(u);
    if n.id <= 0 then n.(id := MaxId(users) + 1) else n
  }

  function Upserted(users: seq<User>, u: User): seq<User> {
    var n := Identified(users, u);
    Place(DetachOthers(users, n.id, n.cards), n)
  }

  function StripOther(u: User, id: int, card: string): User {
    if u.id == id then u else RemoveCardFrom(u, card)
  }

  function StripOthers(users: seq<User>, id: int, card: string): seq<User> {
    seq(|users|, i requires 0 <= i < |users| => StripOther(users[i], id, card))
  }

  function WithCard(u: User, card: string): User {
    Normalize(u.(cards := AppendUnique(u.cards, card)))
  }

  function AssignedCard(users: seq<User>, id: int, c: string): seq<User> {
    var stripped, k := StripOthers(users, id, c), FindId(users, id);
    if k < |users| then stripped[k := WithCard(users[k], c)] else stripped
  }

  function Assigned(users: seq<User>, id: int, card: string): seq<User> {
    var c := CanonicalCard(card);
    if c == "" then users else AssignedCard(users, id, c)
  }

  function StripAll(users: seq<User>, card: string): seq<User> {
    seq(|users|, i requires 0 <= i < |users| => RemoveCardFrom(users[i], card))
  }

  function CardRemoved(users: seq<User>, card: string): seq<User> {
    var c := CanonicalCard(card);
    if c == "" then users else StripAll(users, c)
  }

  lemma CardRemovedIs(users: seq<User>, card: string)
    ensures CardRemoved(users, card) == match ParseCardId(card) case Some(c) => StripAll(users, FormatCardId(c)) case None => users
  {
    CanonicalOf(card);
    CanonicalMeaning(card);
  }

  const BLANK := User(0, true, "", "", "", "", "", "", [], "", "", "", "card", 0, "", "", true, true)

  function Placeholder(id: int, card: string): User {
    Normalize(BLANK.(id := id, lastName := "Карта", firstName := card, cards := [card]))
  }

  function OwnerIndex(users: seq<User>, card: string): (k: nat)
    ensures k <= |users|
    ensures k < |users| ==> exists s :: s in users[k].cards && SameCard(s, card)
    ensures forall i :: 0 <= i < k ==> forall s :: s in users[i].cards ==> !SameCard(s, card)
  {
    if users == [] || exists s :: s in users[0].cards && SameCard(s, card) then 0
    else 1 + OwnerIndex(users[1..], card)
  }

  function EnsuredCard(users: seq<User>, c: string): seq<User> {
    if OwnerIndex(users, c) < |users| then users else users + [Placeholder(MaxId(users) + 1, c)]
  }

  function Ensured(users: seq<User>, card: string): seq<User> {
    var c := CanonicalCard(card);
    if c == "" then users else EnsuredCard(users, c)
  }

  function Erased(users: seq<User>, ids: seq<int>): seq<User> {
    if users == [] then []
    else
      var rest, last := Erased(users[..|users| - 1], ids), users[|users| - 1];
      if last.id in ids then rest else rest + [last]
  }

  // ---- what the list stands for ----

  predicate HasCard(u: User, c: CardId) {
    FormatCardId(c) in u.cards
  }

  ghost predicate Owns(users: seq<User>, id: int, c: CardId) {
    exists i :: 0 <= i < |users| && users[i].id == id && HasCard(users[i], c)
  }

  ghost predicate UniqueIds(users: seq<User>) {
    forall i, j :: 0 <= i < j < |users| ==> users[i].id != users[j].id
  }

  ghost predicate AllNormal(users: seq<User>) {
    forall i :: 0 <= i < |users| ==> Normalized(users[i])
  }

  /** The users there are, and the one owner of each owned card. */
  datatype Registry = Registry(ids: set<int>, owner: map<CardId, int>)

  /** The list is a registry: ids differ, records are normal, no card has two owners. */
  ghost predicate Refines(users: seq<User>, r: Registry) {
    && UniqueIds(users)
    && AllNormal(users)
    && (forall id :: id in r.ids <==> FindId(users, id) < |users|)
    && forall id, c :: Owns(users, id, c) <==> c in r.owner && r.owner[c] == id
  }

  // ---- effects on ownership ----

  lemma DetachKeeps(u: User, cards: seq<string>)
    requires Normalized(u) && CanonicalCards(cards)
    ensures var r := Detach(u, cards);
            && Normalized(r) && r.id == u.id
            && forall c :: HasCard(r, c) <==> HasCard(u, c) && FormatCardId(c) !in cards
  {
    RemoveCardsKeeps(u, cards);
    NormalizeIsIdle(RemoveCards(u, cards));
  }

  lemma DetachOthersOwns(users: seq<User>, id: int, cards: seq<string>)
    requires AllNormal(users) && CanonicalCards(cards)
    ensures var d := DetachOthers(users, id, cards);
            && AllNormal(d)
            && (forall i :: 0 <= i < |users| ==> d[i].id == users[i].id)
            && forall j, c :: Owns(d, j, c) <==> Owns(users, j, c) && (j == id || FormatCardId(c) !in cards)
  {
    var d := DetachOthers(users, id, cards);
    forall i | 0 <= i < |users|
      ensures Normalized(d[i]) && d[i].id == users[i].id
      ensures forall c :: HasCard(d[i], c) <==> HasCard(users[i], c) && (users[i].id == id || FormatCardId(c) !in cards)
    {
      DetachKeeps(users[i], cards);
    }
  }

  lemma StripOthersOwns(users: seq<User>, id: int, card: string)
    requires AllNormal(users) && IsCanonical(card)
    ensures var d := StripOthers(users, id, card);
            && AllNormal(d)
            && (forall i :: 0 <= i < |users| ==> d[i].id == users[i].id)
            && forall j, c :: Owns(d, j, c) <==> Owns(users, j, c) && (j == id || FormatCardId(c) != card)
  {
    var d := StripOthers(users, id, card);
    forall i | 0 <= i < |users|
      ensures Normalized(d[i]) && d[i].id == users[i].id
      ensures forall c :: HasCard(d[i], c) <==> HasCard(users[i], c) && (users[i].id == id || FormatCardId(c) != card)
    {
      RemoveCardKeeps(users[i], card);
    }
  }

  lemma StripAllOwns(users: seq<User>, card: string)
    requires AllNormal(users) && IsCanonical(card)
    ensures var d := StripAll(users, card);
            && AllNormal(d)
            && (forall i :: 0 <= i < |users| ==> d[i].id == users[i].id)
            && forall j, c :: Owns(d, j, c) <==> Owns(users, j, c) && FormatCardId(c) != card
  {
    var d := StripAll(users, card);
    forall i | 0 <= i < |users|
      ensures Normalized(d[i]) && d[i].id == users[i].id
      ensures forall c :: HasCard(d[i], c) <==> HasCard(users[i], c) && FormatCardId(c) != card
    {
      RemoveCardKeeps(users[i], card);
    }
  }

  lemma SameIds(users: seq<User>, later: seq<User>)
    requires |later| == |users| && forall i :: 0 <= i < |users| ==> later[i].id == users[i].id
    ensures UniqueIds(users) ==> UniqueIds(later)
    ensures forall id :: FindId(later, id) == FindId(users, id)
  {
    if UniqueIds(users) {
      forall i, j | 0 <= i < j < |later|
        ensures later[i].id != later[j].id
      {
        assert users[i].id != users[j].id;
      }
    }
    forall id
      ensures FindId(later, id) == FindId(users, id)
    {
      var k, l := FindId(users, id), FindId(later, id);
      assert k < |users| ==> later[k].id == id;
      assert l < |users| ==> users[l].id == id;
    }
  }

  lemma OwnsIn(users: seq<User>, id: int, c: CardId)
    ensures Owns(users, id, c) <==> exists u :: u in users && u.id == id && HasCard(u, c)
  {
  }

  lemma FindIdIn(users: seq<User>, id: int)
    ensures FindId(users, id) < |users| <==> exists u :: u in users && u.id == id
  {
    if u :| u in users && u.id == id {
      var i :| 0 <= i < |users| && users[i] == u;
    }
  }

  lemma PlaceMembers(users: seq<User>, u: User)
    requires UniqueIds(users)
    ensures var p := Place(users, u);
            && UniqueIds(p)
            && forall v :: v in p <==> v == u || (v in users && v.id != u.id)
  {
    var p, k := Place(users, u), FindId(users, u.id);
    assert p[k] == u;
    assert forall i :: 0 <= i < |users| && i != k ==> p[i] == users[i];
    forall i | 0 <= i < |users| && i != k
      ensures users[i].id != u.id
    {
      if k < |users| {
        assert users[k].id == u.id;
        assert if i < k then users[i].id != users[k].id else users[k].id != users[i].id;
      }
    }
    forall v
      ensures v in p <==> v == u || (v in users && v.id != u.id)
    {
      if v in users && v.id != u.id {
        var i :| 0 <= i < |users| && users[i] == v;
        assert p[i] == v;
      }
    }
  }

  lemma PlaceOwns(users: seq<User>, u: User)
    requires UniqueIds(users) && AllNormal(users) && Normalized(u)
    ensures var p := Place(users, u);
            && UniqueIds(p) && AllNormal(p)
            && (forall id :: FindId(p, id) < |p| <==> id == u.id || FindId(users, id) < |users|)
            && forall j, c :: Owns(p, j, c) <==> if j == u.id then HasCard(u, c) else Owns(users, j, c)
  {
    var p := Place(users, u);
    PlaceMembers(users, u);
    forall i | 0 <= i < |p|
      ensures Normalized(p[i])
    {
      assert p[i] in p;
    }
    forall id
      ensures FindId(p, id) < |p| <==> id == u.id || FindId(users, id) < |users|
    {
      FindIdIn(users, id);
      FindIdIn(p, id);
    }
    forall j, c
      ensures Owns(p, j, c) <==> if j == u.id then HasCard(u, c) else Owns(users, j, c)
    {
      OwnsIn(users, j, c);
      OwnsIn(p, j, c);
    }
  }

  lemma MergedAlone(u: User, card: string)
    requires u.cards == [card] && u.card == u.cardSeries == u.cardNumber == "" && IsCanonical(card)
    ensures MergedCards(u) == [card]
  {
    assert CanonicalCards([card]);
    AppendAllIsIdle([card], 1);
    assert [card][..1] == [card];
    assert Trim("") == "";
  }

  lemma MergedPrefix(u: User, cards: seq<string>)
    requires Normalized(u) && CanonicalCards(cards) && u.cards <= cards && |cards| <= |u.cards| + 1
    ensures MergedCards(u.(cards := cards)) == cards
  {
    if cards == [] {
      MergedWithoutCards(u);
    } else if u.cards == [] {
      assert cards[0] in cards && cards == [cards[0]];
      MergedAlone(u.(cards := cards), cards[0]);
    } else {
      var c: CardId :| u.cards[0] == FormatCardId(c) && u.cardSeries == PrintNat(c.series) && u.cardNumber == PrintNat(c.number);
      assert u.cards[0] == cards[0];
      MergedWithPrimary(u.(cards := cards), c);
    }
  }

  lemma WithCardKeeps(u: User, card: string)
    requires Normalized(u) && IsCanonical(card)
    ensures var r := WithCard(u, card);
            && Normalized(r) && r.id == u.id
            && forall s :: s in r.cards <==> s in u.cards || s == card
  {
    CanonicalStays(card);
    AppendUniqueKeeps(u.cards, card);
    var cards := AppendUnique(u.cards, card);
    NormalizeMakesNormal(u.(cards := cards));
    MergedPrefix(u, cards);
  }

  lemma PlaceholderKeeps(id: int, card: string)
    requires IsCanonical(card)
    ensures var r := Placeholder(id, card);
            Normalized(r) && r.id == id && forall s :: s in r.cards <==> s == card
  {
    var u := BLANK.(id := id, lastName := "Карта", firstName := card);
    assert CanonicalCards([]);
    assert Normalized(u);
    WithCardKeeps(u, card);
    CanonicalStays(card);
    AppendUniqueKeeps([], card);
    assert [] + [card] == [card];
  }

  lemma {:induction false} ErasedMembers(users: seq<User>, ids: seq<int>)
    ensures var e := Erased(users, ids);
            && (forall u :: u in e <==> u in users && u.id !in ids)
            && |e| <= |users|
            && (|e| == |users| ==> e == users)
  {
    if users != [] {
      var n := |users| - 1;
      ErasedMembers(users[..n], ids);
      assert users == users[..n] + [users[n]];
    }
  }

  lemma {:induction false} ErasedNone(users: seq<User>)
    ensures Erased(users, []) == users
  {
    if users != [] {
      ErasedNone(users[..|users| - 1]);
    }
  }

  lemma {:induction false} ErasedKeepsUnique(users: seq<User>, ids: seq<int>)
    requires UniqueIds(users)
    ensures UniqueIds(Erased(users, ids))
  {
    if users != [] {
      var rest, last := users[..|users| - 1], users[|users| - 1];
      var e := Erased(rest, ids);
      ErasedKeepsUnique(rest, ids);
      ErasedMembers(rest, ids);
      forall i | 0 <= i < |e|
        ensures e[i].id != last.id
      {
        assert e[i] in rest;
        var k :| 0 <= k < |rest| && rest[k] == e[i];
        assert users[k] == rest[k];
      }
    }
  }

  lemma ErasedOwns(users: seq<User>, ids: seq<int>)
    requires UniqueIds(users) && AllNormal(users)
    ensures var e := Erased(users, ids);
            && UniqueIds(e) && AllNormal(e)
            && (forall id :: FindId(e, id) < |e| <==> FindId(users, id) < |users| && id !in ids)
            && forall j, c :: Owns(e, j, c) <==> Owns(users, j, c) && j !in ids
  {
    var e := Erased(users, ids);
    ErasedMembers(users, ids);
    ErasedKeepsUnique(users, ids);
    forall i | 0 <= i < |e|
      ensures Normalized(e[i])
    {
      assert e[i] in users;
    }
    forall id
      ensures FindId(e, id) < |e| <==> FindId(users, id) < |users| && id !in ids
    {
      FindIdIn(users, id);
      FindIdIn(e, id);
    }
    forall j, c
      ensures Owns(e, j, c) <==> Owns(users, j, c) && j !in ids
    {
      OwnsIn(users, j, c);
      OwnsIn(e, j, c);
    }
  }

  // ---- the operations, on the registry ----

  datatype Op =
    | Upsert(user: User)
    | Assign(id: int, card: string)
    | Ensure(card: string)
    | RemoveCard(card: string)
    | Erase(ids: seq<int>)

  function Apply(users: seq<User>, op: Op): seq<User> {
    match op
    case Upsert(u) => Upserted(users, u)
    case Assign(id, card) => Assigned(users, id, card)
    case Ensure(card) => Ensured(users, card)
    case RemoveCard(card) => CardRemoved(users, card)
    case Erase(ids) => Erased(users, ids)
  }

  /** The id that an operation which may create a user works with. */
  function UsedId(users: seq<User>, op: Op): int {
    if op.Upsert? then Identified(users, op.user).id else MaxId(users) + 1
  }

  function CardsNamed(cards: seq<string>): set<CardId> {
    set s | s in cards && ParseCardId(s).Some? :: ParseCardId(s).value
  }

  /** A card goes to a user; given to an unknown user it is only taken. */
  function Give(r: Registry, id: int, c: CardId): Registry {
    if id in r.ids then r.(owner := r.owner[c := id]) else Take(r, c)
  }

  function Take(r: Registry, c: CardId): Registry {
    r.(owner := r.owner - {c})
  }

  /** A card nobody owns goes to the new user `id`. */
  function Found(r: Registry, c: CardId, id: int): Registry {
    if c in r.owner then r else Registry(r.ids + {id}, r.owner[c := id])
  }

  /** The same operations on the map: a card goes to one user and is taken from any other. */
  function Act(r: Registry, op: Op, id: int): Registry {
    match op
    case Upsert(u) =>
      var cs := CardsNamed(Normalize(u).cards);
      Registry(r.ids + {id},
        map c | c in r.owner.Keys + cs && (c in cs || r.owner[c] != id) :: if c in cs then id else r.owner[c])
    case Assign(i, card) =>
      var c := ParseCardId(card);
      if c.None? then r else Give(r, i, c.value)
    case Ensure(card) =>
      var c := ParseCardId(card);
      if c.None? then r else Found(r, c.value, id)
    case RemoveCard(card) =>
      var c := ParseCardId(card);
      if c.None? then r else Take(r, c.value)
    case Erase(ids) =>
      Registry(set i | i in r.ids && i !in ids, map c | c in r.owner && r.owner[c] !in ids :: r.owner[c])
  }

  lemma {:induction false} MaxIdIsUpperBound(users: seq<User>, i: nat)
    requires i < |users|
    ensures users[i].id <= MaxId(users)
  {
    var n := |users| - 1;
    if i < n {
      MaxIdIsUpperBound(users[..n], i);
    }
  }

  lemma NotFound(users: seq<User>, id: int)
    requires forall i :: 0 <= i < |users| ==> users[i].id < id
    ensures FindId(users, id) == |users|
  {
  }

  lemma FreshId(users: seq<User>)
    ensures FindId(users, MaxId(users) + 1) == |users|
  {
    var id := MaxId(users) + 1;
    forall i | 0 <= i < |users|
      ensures users[i].id < id
    {
      MaxIdIsUpperBound(users, i);
    }
    NotFound(users, id);
  }

  /** Of canonical cards, being listed and being named are the same. */
  lemma ListedIsNamed(cards: seq<string>, c: CardId)
    requires CanonicalCards(cards)
    ensures FormatCardId(c) in cards <==> c in CardsNamed(cards)
  {
    CardRoundTrip(c);
    if c in CardsNamed(cards) {
      var s :| s in cards && ParseCardId(s) == Some(c);
      CanonicalStays(s);
    }
  }

  lemma CanonicalNames(card: string)
    ensures CanonicalCard(card) == match ParseCardId(card) case Some(c) => FormatCardId(c) case None => ""
    ensures ParseCardId(card).Some? ==> CanonicalCard(card) != ""
  {
    CanonicalOf(card);
    CanonicalMeaning(card);
  }

  lemma SpelledOnce(c: CardId)
    ensures forall d :: FormatCardId(d) == FormatCardId(c) <==> d == c
  {
    forall d | FormatCardId(d) == FormatCardId(c)
      ensures d == c
    {
      FormatIsInjective(c, d);
    }
  }

  lemma UpsertRefines(users: seq<User>, r: Registry, u: User)
    requires Refines(users, r)
    ensures Refines(Upserted(users, u), Act(r, Upsert(u), Identified(users, u).id))
  {
    var n := Identified(users, u);
    NormalizeMakesNormal(u);
    assert Normalized(n) by {
      assert n.cards == Normalize(u).cards;
    }
    var d := DetachOthers(users, n.id, n.cards);
    DetachOthersOwns(users, n.id, n.cards);
    SameIds(users, d);
    PlaceOwns(d, n);
    var p, q := Upserted(users, u), Act(r, Upsert(u), n.id);
    forall j, c
      ensures Owns(p, j, c) <==> c in q.owner && q.owner[c] == j
    {
      ListedIsNamed(n.cards, c);
    }
  }

  lemma WithCardHas(u: User, c: CardId)
    requires Normalized(u)
    ensures var w := WithCard(u, FormatCardId(c));
            Normalized(w) && w.id == u.id && forall e :: HasCard(w, e) <==> HasCard(u, e) || e == c
  {
    WithCardKeeps(u, FormatCardId(c));
    SpelledOnce(c);
  }

  lemma PlacedAt(users: seq<User>, k: nat, w: User)
    requires k < |users| && k == FindId(users, w.id)
    ensures Place(users, w) == users[k := w]
  {
  }

  lemma StripOthersOwnsCard(users: seq<User>, id: int, c: CardId)
    requires AllNormal(users) && UniqueIds(users)
    ensures var d := StripOthers(users, id, FormatCardId(c));
            && AllNormal(d) && UniqueIds(d)
            && (forall j :: FindId(d, j) == FindId(users, j))
            && forall j, e :: Owns(d, j, e) <==> Owns(users, j, e) && (j == id || e != c)
  {
    StripOthersOwns(users, id, FormatCardId(c));
    SpelledOnce(c);
    SameIds(users, StripOthers(users, id, FormatCardId(c)));
  }

  lemma GivenOwns(users: seq<User>, d: seq<User>, id: int, c: CardId, k: nat, w: User)
    requires UniqueIds(users) && AllNormal(d) && UniqueIds(d) && |d| == |users|
    requires forall j :: FindId(d, j) == FindId(users, j)
    requires forall j, e :: Owns(d, j, e) <==> Owns(users, j, e) && (j == id || e != c)
    requires k == FindId(users, id) < |users| && Normalized(w) && w.id == id
    requires forall e :: HasCard(w, e) <==> HasCard(users[k], e) || e == c
    ensures var p := d[k := w];
            && UniqueIds(p) && AllNormal(p)
            && (forall j :: FindId(p, j) < |p| <==> FindId(users, j) < |users|)
            && forall j, e :: Owns(p, j, e) <==> if e == c then j == id else Owns(users, j, e)
  {
    PlacedAt(d, k, w);
    PlaceOwns(d, w);
    OnlyRecord(users, k);
    var p := d[k := w];
    forall j, e
      ensures Owns(p, j, e) <==> if e == c then j == id else Owns(users, j, e)
    {
      if j == id {
        assert Owns(p, j, e) <==> HasCard(w, e);
        assert HasCard(users[k], e) <==> Owns(users, id, e);
      }
    }
  }

  lemma GivenRefines(users: seq<User>, p: seq<User>, r: Registry, id: int, c: CardId)
    requires Refines(users, r) && id in r.ids && UniqueIds(p) && AllNormal(p)
    requires forall j :: FindId(p, j) < |p| <==> FindId(users, j) < |users|
    requires forall j, e :: Owns(p, j, e) <==> if e == c then j == id else Owns(users, j, e)
    ensures Refines(p, Give(r, id, c))
  {
  }

  lemma GiveRefines(users: seq<User>, r: Registry, id: int, c: CardId)
    requires Refines(users, r)
    ensures Refines(AssignedCard(users, id, FormatCardId(c)), Give(r, id, c))
  {
    var c0, k := FormatCardId(c), FindId(users, id);
    var d := StripOthers(users, id, c0);
    StripOthersOwnsCard(users, id, c);
    if k < |users| {
      var w := WithCard(users[k], c0);
      WithCardHas(users[k], c);
      GivenOwns(users, d, id, c, k, w);
      GivenRefines(users, d[k := w], r, id, c);
    } else {
      NobodyOwns(users, id);
    }
  }

  lemma AssignRefines(users: seq<User>, r: Registry, id: int, card: string)
    requires Refines(users, r)
    ensures Refines(Assigned(users, id, card), Act(r, Assign(id, card), 0))
  {
    CanonicalNames(card);
    if ParseCardId(card).Some? {
      GiveRefines(users, r, id, ParseCardId(card).value);
    }
  }

  lemma SameIdSameRecord(users: seq<User>, i: nat, j: nat)
    requires i < |users| && j < |users| && UniqueIds(users) && users[i].id == users[j].id
    ensures i == j
  {
  }

  lemma OnlyRecord(users: seq<User>, k: nat)
    requires k < |users| && UniqueIds(users)
    ensures forall c :: HasCard(users[k], c) <==> Owns(users, users[k].id, c)
  {
    forall c | Owns(users, users[k].id, c)
      ensures HasCard(users[k], c)
    {
      var i :| 0 <= i < |users| && users[i].id == users[k].id && HasCard(users[i], c);
      SameIdSameRecord(users, i, k);
    }
  }

  lemma NobodyOwns(users: seq<User>, id: int)
    requires FindId(users, id) == |users|
    ensures forall c :: !Owns(users, id, c)
  {
  }

  lemma OwnerFound(users: seq<User>, c: CardId)
    requires AllNormal(users)
    ensures var k := OwnerIndex(users, FormatCardId(c));
            && (k < |users| ==> HasCard(users[k], c))
            && (k == |users| ==> forall j :: !Owns(users, j, c))
  {
    FormattedIsCanonical(c);
    var s0, k := FormatCardId(c), OwnerIndex(users, FormatCardId(c));
    if k < |users| {
      var s :| s in users[k].cards && SameCard(s, s0);
      assert Normalized(users[k]);
      SameCanonical(s, s0);
    } else {
      forall i | 0 <= i < |users|
        ensures !HasCard(users[i], c)
      {
        if s0 in users[i].cards {
          assert SameCard(s0, s0);
        }
      }
    }
  }

  lemma FormattedIsCanonical(c: CardId)
    ensures IsCanonical(FormatCardId(c))
  {
  }

  lemma PlaceholderHas(id: int, c: CardId)
    ensures var n := Placeholder(id, FormatCardId(c));
            Normalized(n) && n.id == id && forall e :: HasCard(n, e) <==> e == c
  {
    PlaceholderKeeps(id, FormatCardId(c));
    SpelledOnce(c);
  }

  lemma FoundRefines(users: seq<User>, r: Registry, c: CardId)
    requires Refines(users, r)
    ensures Refines(EnsuredCard(users, FormatCardId(c)), Found(r, c, MaxId(users) + 1))
  {
    OwnerFound(users, c);
    var k := OwnerIndex(users, FormatCardId(c));
    if k < |users| {
      assert Owns(users, users[k].id, c);
    } else {
      assert forall j :: !Owns(users, j, c);
      PlaceholderHas(MaxId(users) + 1, c);
      AddedRefines(users, r, c, Placeholder(MaxId(users) + 1, FormatCardId(c)));
    }
  }

  lemma OwnerOwns(users: seq<User>, r: Registry, c: CardId)
    requires Refines(users, r)
    ensures c in r.owner ==> Owns(users, r.owner[c], c)
  {
  }

  lemma AddedOwns(users: seq<User>, c: CardId, n: User)
    requires UniqueIds(users) && AllNormal(users) && (forall j :: !Owns(users, j, c))
    requires Normalized(n) && n.id == MaxId(users) + 1 && forall e :: HasCard(n, e) <==> e == c
    ensures var p := users + [n];
            && UniqueIds(p) && AllNormal(p)
            && (forall j :: FindId(p, j) < |p| <==> j == n.id || FindId(users, j) < |users|)
            && forall j, e :: Owns(p, j, e) <==> if e == c then j == n.id else Owns(users, j, e)
  {
    FreshId(users);
    assert Place(users, n) == users + [n];
    PlaceOwns(users, n);
    NobodyOwns(users, n.id);
  }

  lemma AddedRefines(users: seq<User>, r: Registry, c: CardId, n: User)
    requires Refines(users, r) && (forall j :: !Owns(users, j, c))
    requires Normalized(n) && n.id == MaxId(users) + 1 && forall e :: HasCard(n, e) <==> e == c
    ensures Refines(users + [n], Found(r, c, n.id))
  {
    AddedOwns(users, c, n);
    var p := users + [n];
    OwnerOwns(users, r, c);
  }

  lemma EnsuredActs(users: seq<User>, r: Registry, card: string, c: CardId, id: int)
    requires ParseCardId(card) == Some(c)
    ensures Ensured(users, card) == EnsuredCard(users, FormatCardId(c))
    ensures Act(r, Ensure(card), id) == Found(r, c, id)
  {
    CanonicalNames(card);
  }

  lemma EnsureRefines(users: seq<User>, r: Registry, card: string)
    requires Refines(users, r)
    ensures Refines(Ensured(users, card), Act(r, Ensure(card), MaxId(users) + 1))
  {
    match ParseCardId(card)
    case Some(c) =>
      FoundRefines(users, r, c);
      EnsuredActs(users, r, card, c, MaxId(users) + 1);
    case None =>
      CanonicalNames(card);
  }

  lemma TakeRefines(users: seq<User>, r: Registry, c: CardId)
    requires Refines(users, r)
    ensures Refines(StripAll(users, FormatCardId(c)), Take(r, c))
  {
    StripAllOwns(users, FormatCardId(c));
    SpelledOnce(c);
    SameIds(users, StripAll(users, FormatCardId(c)));
  }

  lemma CardRemovedActs(users: seq<User>, r: Registry, card: string, c: CardId)
    requires ParseCardId(card) == Some(c)
    ensures CardRemoved(users, card) == StripAll(users, FormatCardId(c))
    ensures Act(r, RemoveCard(card), 0) == Take(r, c)
  {
    CardRemovedIs(users, card);
  }

  lemma RemoveRefines(users: seq<User>, r: Registry, card: string, p: seq<User>, q: Registry)
    requires Refines(users, r) && p == CardRemoved(users, card) && q == Act(r, RemoveCard(card), 0)
    ensures Refines(p, q)
  {
    match ParseCardId(card)
    case Some(c) =>
      TakeRefines(users, r, c);
      CardRemovedActs(users, r, card, c);
    case None =>
      CardRemovedIs(users, card);
  }

  lemma EraseRefines(users: seq<User>, r: Registry, ids: seq<int>)
    requires Refines(users, r)
    ensures Refines(Erased(users, ids), Act(r, Erase(ids), 0))
  {
    ErasedOwns(users, ids);
  }

  /** Every operation does to the list what it does to the map. */
  lemma StepRefines(users: seq<User>, r: Registry, op: Op)
    requires Refines(users, r)
    ensures Refines(Apply(users, op), Act(r, op, UsedId(users, op)))
  {
    match op
    case Upsert(u) => UpsertRefines(users, r, u);
    case Assign(id, card) => AssignRefines(users, r, id, card);
    case Ensure(card) => EnsureRefines(users, r, card);
    case RemoveCard(card) => RemoveRefines(users, r, card, CardRemoved(users, card), Act(r, op, 0));
    case Erase(ids) => EraseRefines(users, r, ids);
  }

  function Run(users: seq<User>, ops: seq<Op>): seq<User>
    decreases |ops|
  {
    if ops == [] then users else Run(Apply(users, ops[0]), ops[1..])
  }

  function RunRegistry(users: seq<User>, r: Registry, ops: seq<Op>): Registry
    decreases |ops|
  {
    if ops == [] then r
    else RunRegistry(Apply(users, ops[0]), Act(r, ops[0], UsedId(users, ops[0])), ops[1..])
  }

  /** So does every sequence of operations; in particular ids stay unique, records normal, and each
      card with at most one owner. */
  lemma {:induction false} RunRefines(users: seq<User>, r: Registry, ops: seq<Op>)
    requires Refines(users, r)
    ensures Refines(Run(users, ops), RunRegistry(users, r, ops))
    decreases |ops|
  {
    if ops != [] {
      StepRefines(users, r, ops[0]);
      RunRefines(Apply(users, ops[0]), Act(r, ops[0], UsedId(users, ops[0])), ops[1..]);
    }
  }

  /** A card has at most one owner, whatever the spellings. */
  lemma OneOwner(users: seq<User>, r: Registry, i: nat, j: nat, s: string, t: string)
    requires Refines(users, r) && i < |users| && j < |users|
    requires s in users[i].cards && t in users[j].cards && SameCard(s, t)
    ensures i == j && s == t
  {
    assert Normalized(users[i]) && Normalized(users[j]);
    SameCanonical(s, t);
    var c :| s == FormatCardId(c);
    assert HasCard(users[i], c) && HasCard(users[j], c);
    assert Owns(users, users[i].id, c) && Owns(users, users[j].id, c);
    SameIdSameRecord(users, i, j);
  }

  /** A failed assignment (the id is unknown) still takes the card from its owner, so the store is as
      it was exactly when nobody had the card. */
  lemma FailedAssignment(users: seq<User>, r: Registry, id: int, c: CardId)
    requires Refines(users, r) && id !in r.ids
    ensures Assigned(users, id, FormatCardId(c)) == users <==> c !in r.owner
  {
    var c0 := FormatCardId(c);
    CardRoundTrip(c);
    CanonicalNames(c0);
    GiveRefines(users, r, id, c);
    if c in r.owner {
      assert Owns(users, r.owner[c], c);
      assert !Owns(AssignedCard(users, id, c0), r.owner[c], c);
    } else {
      var d := StripOthers(users, id, c0);
      forall i | 0 <= i < |users|
        ensures d[i] == users[i]
      {
        RemoveCardKeeps(users[i], c0);
        assert HasCard(users[i], c) ==> Owns(users, users[i].id, c);
      }
      assert d == users;
    }
  }
}
