/** The user store itself: a list of users changed in place. */
module UserStore {
  import opened Wrappers
  import opened Text
  import opened CardText
  import opened Types
  import opened Normal
  import opened UserRegistry
  import CsvText

  lemma {:induction false} DropShrinks(cards: seq<string>, c: string)
    ensures |Drop(cards, c, SameCard)| <= |cards|
  {
    if cards != [] {
      DropShrinks(cards[..|cards| - 1], c);
    }
  }

  lemma RemovalStep(u: User, cards: seq<string>, j: nat)
    requires j < |cards|
    ensures RemoveCards(u, cards[..j + 1]) == RemoveCardFrom(RemoveCards(u, cards[..j]), cards[j])
    ensures |RemoveCards(u, cards[..j + 1]).cards| <= |RemoveCards(u, cards[..j]).cards|
  {
    assert cards[..j + 1][..j] == cards[..j];
    DropShrinks(RemoveCards(u, cards[..j]).cards, cards[j]);
  }

  class UserManager {
    var users: seq<User>

    constructor (users: seq<User>)
      ensures this.users == users
    {
      this.users := users;
    }

    /** Writing the list out may fail; the list in memory stays as it is. */
    method Save() returns (ok: bool)
    {
      ok := *;
    }

    method ByCard(card: string) returns (r: Option<User>)
      ensures var c := CanonicalCard(card);
        r == if c != "" && OwnerIndex(users, c) < |users| then Some(users[OwnerIndex(users, c)]) else None
    {
      var canonical := CanonicalCard(card);
      if canonical == "" {
        return None;
      }
      var i := 0;
      while i < |users|
        invariant 0 <= i <= OwnerIndex(users, canonical)
      {
        if exists s :: s in users[i].cards && SameCard(s, canonical) {
          return Some(users[i]);
        }
        i := i + 1;
      }
      r := None;
    }

    /** Takes a card away from one record; the single-card fields follow. */
    method RemoveCardFromUser(u: User, card: string) returns (x: User, removed: bool)
      ensures x == RemoveCardFrom(u, card)
      ensures |x.cards| <= |u.cards| && (removed <==> |x.cards| < |u.cards|) && (!removed ==> x == u)
    {
      DropShrinks(u.cards, card);
      x := u.(cards := Drop(u.cards, card, SameCard));
      removed := |x.cards| != |u.cards|;
      x := if removed then SyncPrimary(x) else u;
    }

    /** Takes the cards away from one record; normalises it if it lost one. */
    method DetachFrom(u: User, cards: seq<string>) returns (x: User)
      ensures x == Detach(u, cards)
    {
      x := u;
      var changed := false;
      for j := 0 to |cards|
        invariant x == RemoveCards(u, cards[..j])
        invariant |x.cards| <= |u.cards| && (changed <==> |x.cards| < |u.cards|)
        invariant !changed ==> x == u
      {
        RemovalStep(u, cards, j);
        var y, removed := RemoveCardFromUser(x, cards[j]);
        changed := removed || changed;
        x := y;
      }
      assert cards[..|cards|] == cards;
      if changed {
        x := Normalize(x);
      }
    }

    /** No other user keeps any of these cards. */
    method DetachFromOthers(id: int, cards: seq<string>)
      modifies this
      ensures users == DetachOthers(old(users), id, cards)
    {
      var i := 0;
      ghost var d := DetachOthers(users, id, cards);
      while i < |users|
        invariant 0 <= i <= |users| == |d|
        invariant forall k :: 0 <= k < i ==> users[k] == d[k]
        invariant forall k :: i <= k < |users| ==> users[k] == old(users)[k]
      {
        if users[i].id != id {
          var x := DetachFrom(users[i], cards);
          users := users[i := x];
        }
        i := i + 1;
      }
      assert users == d;
    }

    method Upsert(user: User) returns (u: User)
      modifies this
      ensures users == Upserted(old(users), user) && u == Identified(old(users), user)
    {
      u := Normalize(user);
      if u.id <= 0 {
        u := u.(id := MaxId(users) + 1);
      }
      DetachFromOthers(u.id, u.cards);
      var k := FindId(users, u.id);
      if k < |users| {
        users := users[k := u];
      } else {
        users := users + [u];
      }
      var saved := Save();
    }

    method Erase(id: int) returns (ok: bool)
      modifies this
      ensures users == Erased(old(users), [id])
      ensures ok ==> |users| < |old(users)|
    {
      var n := |users|;
      ErasedMembers(users, [id]);
      users := Erased(users, [id]);
      if n == |users| {
        return false;
      }
      ok := Save();
    }

    method EraseMany(ids: seq<int>) returns (removed: nat)
      modifies this
      ensures users == Erased(old(users), ids)
      ensures removed == |old(users)| - |users|
    {
      ErasedMembers(users, ids);
      if ids == [] {
        ErasedNone(users);
        return 0;
      }
      var before := |users|;
      users := Erased(users, ids);
      removed := before - |users|;
      if removed > 0 {
        var saved := Save();
      }
    }

    /** No other user keeps this card; tells whether the user was met on the way. */
    method StripFromOthers(id: int, card: string) returns (found: bool)
      modifies this
      ensures users == StripOthers(old(users), id, card)
      ensures found <==> exists k :: 0 <= k < |old(users)| && old(users)[k].id == id
    {
      found := false;
      var i := 0;
      ghost var d := StripOthers(users, id, card);
      while i < |users|
        invariant 0 <= i <= |users| == |d|
        invariant forall k :: 0 <= k < i ==> users[k] == d[k]
        invariant forall k :: i <= k < |users| ==> users[k] == old(users)[k]
        invariant found <==> exists k :: 0 <= k < i && old(users)[k].id == id
      {
        var x, met := StripOne(users[i], id, card);
        users := users[i := x];
        found := found || met;
        i := i + 1;
      }
      assert users == d;
    }

    method StripOne(u: User, id: int, card: string) returns (x: User, met: bool)
      ensures x == StripOther(u, id, card) && (met <==> u.id == id)
    {
      if u.id == id {
        return u, true;
      }
      var removed;
      x, removed := RemoveCardFromUser(u, card);
      met := false;
    }

    method AssignCard(id: int, card: string) returns (ok: bool)
      modifies this
      ensures users == Assigned(old(users), id, card)
      ensures ok ==> CanonicalCard(card) != "" && FindId(old(users), id) < |old(users)|
    {
      var canonical := CanonicalCard(card);
      if canonical == "" {
        return false;
      }
      FindIdExists(users, id);
      var found := StripFromOthers(id, canonical);
      if !found {
        return false;
      }
      StripKeepsIds(old(users), id, canonical);
      var k := FindId(users, id);
      users := users[k := WithCard(users[k], canonical)];
      ok := Save();
    }

    /** The owner of a card, or a new placeholder user for it. */
    method EnsureUserForCard(card: string) returns (r: Option<User>)
      modifies this
      ensures users == Ensured(old(users), card)
      ensures CanonicalCard(card) == "" ==> r.None?
      ensures r.Some? ==> r.value in users && exists s :: s in r.value.cards && SameCard(s, CanonicalCard(card))
    {
      var canonical := CanonicalCard(card);
      if canonical == "" {
        return None;
      }
      var k := OwnerIndex(users, canonical);
      if k < |users| {
        return Some(users[k]);
      }
      var u := Placeholder(MaxId(users) + 1, canonical);
      CanonicalResult(card);
      PlaceholderKeeps(MaxId(users) + 1, canonical);
      assert canonical in u.cards && SameCard(canonical, canonical);
      users := users + [u];
      var saved := Save();
      r := if saved then Some(u) else None;
    }

    method RemoveCard(card: string) returns (ok: bool)
      modifies this
      ensures users == CardRemoved(old(users), card)
      ensures ok ==> exists k :: 0 <= k < |users| && |users[k].cards| < |old(users)[k].cards|
    {
      var canonical := CanonicalCard(card);
      if canonical == "" {
        return false;
      }
      ok := false;
      var i := 0;
      while i < |users|
        invariant 0 <= i <= |users| == |old(users)|
        invariant forall k :: 0 <= k < i ==> users[k] == RemoveCardFrom(old(users)[k], canonical)
        invariant ok <==> exists k :: 0 <= k < i && |users[k].cards| < |old(users)[k].cards|
        invariant forall k :: i <= k < |users| ==> users[k] == old(users)[k]
      {
        var x, removed := RemoveCardFromUser(users[i], canonical);
        ok := removed || ok;
        users := users[i := x];
        i := i + 1;
      }
      assert users == StripAll(old(users), canonical);
      if ok {
        ok := Save();
      }
    }

    /** The rows of a CSV file, or nothing if one of them is bad. */
    method ReadRows(csv: string, decode: string -> Option<User>) returns (r: Option<seq<User>>)
      ensures r == CsvText.ImportWith(csv, decode)
    {
      var n: seq<User> := [];
      var left := CsvText.Lines(csv);
      if left != [] {
        left := left[1..];
      }
      assert forall rows: seq<User> :: n + rows == rows;
      while left != []
        invariant CsvText.ImportWith(csv, decode) ==
          match CsvText.ImportRows(left, decode) case Some(rows) => Some(n + rows) case None => None
        decreases |left|
      {
        if Trim(left[0]) != "" {
          var u := decode(left[0]);
          if u.None? {
            return None;
          }
          assert forall rows: seq<User> :: n + ([u.value] + rows) == n + [u.value] + rows;
          n := n + [u.value];
        }
        left := left[1..];
      }
      assert n + [] == n;
      r := Some(n);
    }

    /** All or nothing: a bad row leaves the list as it is. */
    method ImportCsv(csv: string) returns (ok: bool)
      modifies this
      ensures users == match CsvText.Import(csv) case Some(rows) => rows case None => old(users)
      ensures ok ==> CsvText.Import(csv).Some?
    {
      var n := ReadRows(csv, CsvText.DecodeLine);
      if n.None? {
        return false;
      }
      users := n.value;
      ok := Save();
    }
  }

  lemma FindIdExists(users: seq<User>, id: int)
    ensures FindId(users, id) < |users| <==> exists k :: 0 <= k < |users| && users[k].id == id
  {
  }

  lemma StripKeepsIds(users: seq<User>, id: int, card: string)
    ensures FindId(StripOthers(users, id, card), id) == FindId(users, id)
  {
    var d := StripOthers(users, id, card);
    var k, l := FindId(users, id), FindId(d, id);
    assert forall i :: 0 <= i < |users| ==> d[i].id == users[i].id;
  }

  /** What a lookup returns is what the map says. */
  lemma LookupIsOwner(users: seq<User>, r: Registry, card: string)
    requires Refines(users, r)
    ensures var c := CanonicalCard(card);
            var k := OwnerIndex(users, c);
            if ParseCardId(card).Some? && ParseCardId(card).value in r.owner
            then c != "" && k < |users| && users[k].id == r.owner[ParseCardId(card).value]
            else c == "" || k == |users|
  {
    CanonicalNames(card);
    if ParseCardId(card).Some? {
      var c := ParseCardId(card).value;
      OwnerFound(users, c);
      var k := OwnerIndex(users, FormatCardId(c));
      if k < |users| {
        assert Owns(users, users[k].id, c);
      } else {
        OwnerOwns(users, r, c);
      }
    }
  }
}
