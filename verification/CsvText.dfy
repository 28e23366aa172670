/** The user list as CSV text: printing, parsing, and what survives the two. */
module CsvText {
  import opened Wrappers
  import opened Text
  import opened CardText
  import opened Types
  import opened Normal
  import opened Comparison
  import opened UserRegistry

  const SEP := ';'
  const BAR := '|'
  const EOL := '\n'

  function CleanChar(c: char): char {
    if c == SEP || c == EOL || c == '\r' then ' ' else c
  }

  function Clean(s: string): string {
    seq(|s|, i requires 0 <= i < |s| => CleanChar(s[i]))
  }

  predicate IsClean(s: string) {
    SEP !in s && EOL !in s && '\r' !in s
  }

  lemma CleanIsClean(s: string)
    ensures IsClean(Clean(s)) && (IsClean(s) ==> Clean(s) == s)
  {
    assert forall i :: 0 <= i < |s| ==> Clean(s)[i] == CleanChar(s[i]);
  }

  // ---- signed numbers ----

  predicate IsInt32(n: int) {
    -0x8000_0000 <= n < 0x8000_0000
  }

  function PrintInt(n: int): string {
    if n < 0 then "-" + PrintNat(-n) else PrintNat(n)
  }

  /** stoi: leading white space, a sign, digits up to the first other character. */
  function ParseInt(s: string): Option<int> {
    var t := TrimLeft(s);
    var signed := t != [] && (t[0] == '-' || t[0] == '+');
    var d := DigitPrefix(if signed then t[1..] else t);
    if d == [] then None
    else
      var v: int := if t[0] == '-' then 0 - DecimalValue(d) else DecimalValue(d) as int;
      if IsInt32(v) then Some(v) else None
  }

  lemma DigitsScan(p: string)
    requires AllDigits(p) && p != ""
    ensures DigitPrefix(p) == p && TrimLeft(p) == p && IsClean(p) && BAR !in p
  {
    DigitPrefixOf(p, []);
    assert p + [] == p;
    assert forall i :: 0 <= i < |p| ==> IsDigit(p[i]);
  }

  lemma PrintIntParses(n: int)
    requires IsInt32(n)
    ensures ParseInt(PrintInt(n)) == Some(n)
    ensures IsClean(PrintInt(n)) && PrintInt(n) != "" && !IsSpace(PrintInt(n)[0])
  {
    var p := PrintNat(if n < 0 then -n else n);
    PrintNatValue(if n < 0 then -n else n);
    DigitsScan(p);
    assert IsDigit(p[0]);
    if n < 0 {
      var s := "-" + p;
      assert s[1..] == p && TrimLeft(s) == s;
    }
  }

  // ---- rows ----

  function Flag(b: bool): string {
    if b then "1" else "0"
  }

  function CleanAll(cards: seq<string>): seq<string> {
    seq(|cards|, i requires 0 <= i < |cards| => Clean(cards[i]))
  }

  function EncodeCards(n: User): string {
    Join(CleanAll(n.cards), BAR)
  }

  /** The eighteen fields of a normal user. */
  function FieldsOf(n: User): seq<string> {
    [PrintInt(n.id), Flag(n.enabled), Clean(n.lastName), Clean(n.firstName), Clean(n.middleName), Clean(n.department),
     Clean(n.position), Clean(n.card), Clean(n.cardSeries), Clean(n.cardNumber), Clean(n.pinCode), Clean(n.accessMode),
     PrintInt(n.controllerPort), Clean(n.validFrom), Clean(n.validUntil), Flag(n.telegramArrival),
     Flag(n.telegramDeparture), EncodeCards(n)]
  }

  function RowOf(u: User): string {
    Join(FieldsOf(Normalize(u)), SEP)
  }

  function Named(c: seq<string>, id: int): User
    requires |c| >= 12
  {
    BLANK.(id := id, enabled := c[1] != "0", lastName := c[2], firstName := c[3], middleName := c[4],
           department := c[5], position := c[6], card := c[7])
  }

  function Port(s: string): Option<int> {
    if s == "" then Some(0) else ParseInt(s)
  }

  /** The fields of a row before normalising; three layouts, the oldest without a user address. */
  function ParseFields(c: seq<string>): Option<User> {
    if |c| < 12 || ParseInt(c[0]).None? then None
    else
      var u := Named(c, ParseInt(c[0]).value);
      if |c| >= 17 then
        if Port(c[12]).None? then None
        else Some(u.(
          cardSeries := c[8], cardNumber := c[9], pinCode := c[10], accessMode := if c[11] == "" then "card" else c[11],
          controllerPort := Port(c[12]).value, validFrom := c[13], validUntil := c[14],
          telegramArrival := c[15] != "0", telegramDeparture := c[16] != "0",
          cards := if |c| >= 18 then AppendAll([], Split(c[17], BAR)) else []))
      else if |c| >= 13 then
        if Port(c[8]).None? then None
        else Some(u.(controllerPort := Port(c[8]).value, validFrom := c[9], validUntil := c[10],
                     telegramArrival := c[11] != "0", telegramDeparture := c[12] != "0"))
      else Some(u.(controllerPort := 0, validFrom := c[8], validUntil := c[9],
                   telegramArrival := c[10] != "0", telegramDeparture := c[11] != "0"))
  }

  function DecodeRow(c: seq<string>): Option<User> {
    match ParseFields(c)
    case Some(u) => Some(Normalize(u))
    case None => None
  }

  /** The user as text can show it: separators and line ends become blanks. */
  function Shown(n: User): User {
    n.(lastName := Clean(n.lastName), firstName := Clean(n.firstName), middleName := Clean(n.middleName),
       department := Clean(n.department), position := Clean(n.position),
       validFrom := Clean(n.validFrom), validUntil := Clean(n.validUntil))
  }

  lemma PrintedIsPlain(n: nat)
    ensures IsClean(PrintNat(n)) && BAR !in PrintNat(n)
  {
    assert forall i :: 0 <= i < |PrintNat(n)| ==> IsDigit(PrintNat(n)[i]);
  }

  lemma CanonicalIsPlain(s: string)
    requires IsCanonical(s)
    ensures IsClean(s) && BAR !in s && s != ""
  {
    var c: CardId :| s == FormatCardId(c);
    PrintedIsPlain(c.series);
    PrintedIsPlain(c.number);
  }

  lemma CardsArePlain(n: User)
    requires Normalized(n)
    ensures CleanAll(n.cards) == n.cards
    ensures forall i :: 0 <= i < |n.cards| ==> BAR !in n.cards[i] && IsClean(n.cards[i]) && n.cards[i] != ""
    ensures IsClean(n.card) && IsClean(n.cardSeries) && IsClean(n.cardNumber)
  {
    forall i | 0 <= i < |n.cards|
      ensures BAR !in n.cards[i] && IsClean(n.cards[i]) && n.cards[i] != "" && Clean(n.cards[i]) == n.cards[i]
    {
      CanonicalIsPlain(n.cards[i]);
      CleanIsClean(n.cards[i]);
    }
    if n.cards != [] {
      var c: CardId :| n.cards[0] == FormatCardId(c) && n.cardSeries == PrintNat(c.series) && n.cardNumber == PrintNat(c.number);
      PrintedIsPlain(c.series);
      PrintedIsPlain(c.number);
      CanonicalIsPlain(n.cards[0]);
    }
  }

  lemma {:induction false} JoinLacks(fs: seq<string>, d: char, c: char)
    requires c != d && forall i :: 0 <= i < |fs| ==> c !in fs[i]
    ensures c !in Join(fs, d)
  {
    if |fs| > 1 {
      JoinLacks(fs[1..], d, c);
    }
  }

  /** The list of cards survives being joined and split. */
  lemma CardsRoundTrip(n: User)
    requires Normalized(n)
    ensures AppendAll([], Split(EncodeCards(n), BAR)) == n.cards
    ensures IsClean(EncodeCards(n))
  {
    CardsArePlain(n);
    SplitOfJoin(n.cards, BAR);
    JoinLacks(n.cards, BAR, SEP);
    JoinLacks(n.cards, BAR, EOL);
    JoinLacks(n.cards, BAR, '\r');
    AppendAllIsIdle(n.cards, |n.cards|);
    assert n.cards[..|n.cards|] == n.cards;
  }

  lemma PinIsClean(pin: string, mode: string)
    requires ValidPin(pin) && ValidMode(mode)
    ensures IsClean(pin) && IsClean(mode) && mode != ""
  {
    if pin != "" {
      assert forall i :: 0 <= i < 4 ==> IsDigit(pin[i]);
    }
  }

  /** The fields of a row other than numbers, flags and the list of cards. */
  function Texts(n: User): seq<string> {
    [n.lastName, n.firstName, n.middleName, n.department, n.position, n.card, n.cardSeries, n.cardNumber, n.pinCode,
     n.accessMode]
  }

  lemma CleanedAreClean(ts: seq<string>)
    ensures forall i :: 0 <= i < |ts| ==> IsClean(CleanAll(ts)[i])
  {
    forall i | 0 <= i < |ts|
      ensures IsClean(CleanAll(ts)[i])
    {
      CleanIsClean(ts[i]);
    }
  }

  lemma FieldsFromTexts(n: User)
    ensures FieldsOf(n) == [PrintInt(n.id), Flag(n.enabled)] + CleanAll(Texts(n)) + [PrintInt(n.controllerPort)]
      + CleanAll([n.validFrom, n.validUntil]) + [Flag(n.telegramArrival), Flag(n.telegramDeparture), EncodeCards(n)]
  {
  }

  lemma FieldsAreClean(n: User)
    requires IsClean(PrintInt(n.id)) && IsClean(PrintInt(n.controllerPort)) && IsClean(EncodeCards(n))
    ensures forall i :: 0 <= i < |FieldsOf(n)| ==> IsClean(FieldsOf(n)[i])
  {
    CleanedAreClean(Texts(n));
    CleanedAreClean([n.validFrom, n.validUntil]);
    FieldsFromTexts(n);
  }

  lemma ShownIsNormal(n: User)
    requires Normalized(n)
    ensures Normalized(Shown(n))
  {
  }

  lemma ParseEighteen(c: seq<string>, id: int, port: int)
    requires |c| == 18 && ParseInt(c[0]) == Some(id) && Port(c[12]) == Some(port) && c[11] != ""
    ensures ParseFields(c) == Some(User(id, c[1] != "0", c[2], c[3], c[4], c[5], c[6], c[7],
              AppendAll([], Split(c[17], BAR)), c[8], c[9], c[10], c[11], port, c[13], c[14], c[15] != "0", c[16] != "0"))
  {
  }

  /** The eighteen fields of a row that needs no cleaning but in its names and dates. */
  ghost predicate ShowsUser(c: seq<string>, n: User) {
    && |c| == 18
    && c[0] == PrintInt(n.id) && c[1] == Flag(n.enabled)
    && c[2] == Clean(n.lastName) && c[3] == Clean(n.firstName) && c[4] == Clean(n.middleName)
    && c[5] == Clean(n.department) && c[6] == Clean(n.position)
    && c[7] == n.card && c[8] == n.cardSeries && c[9] == n.cardNumber && c[10] == n.pinCode && c[11] == n.accessMode
    && c[12] == PrintInt(n.controllerPort) && c[13] == Clean(n.validFrom) && c[14] == Clean(n.validUntil)
    && c[15] == Flag(n.telegramArrival) && c[16] == Flag(n.telegramDeparture) && c[17] == EncodeCards(n)
  }

  lemma ParseShown(c: seq<string>, n: User)
    requires ShowsUser(c, n)
    requires ParseInt(PrintInt(n.id)) == Some(n.id)
    requires PrintInt(n.controllerPort) != "" && ParseInt(PrintInt(n.controllerPort)) == Some(n.controllerPort)
    requires AppendAll([], Split(EncodeCards(n), BAR)) == n.cards && n.accessMode != ""
    ensures ParseFields(c) == Some(Shown(n))
  {
    ParseEighteen(c, n.id, n.controllerPort);
  }

  lemma FieldsShowUser(n: User)
    requires IsClean(n.card) && IsClean(n.cardSeries) && IsClean(n.cardNumber)
    requires IsClean(n.pinCode) && IsClean(n.accessMode)
    ensures ShowsUser(FieldsOf(n), n)
  {
    CleanIsClean(n.card);
    CleanIsClean(n.cardSeries);
    CleanIsClean(n.cardNumber);
    CleanIsClean(n.pinCode);
    CleanIsClean(n.accessMode);
  }

  lemma ParseOfFields(n: User)
    requires Normalized(n) && Printable(n)
    ensures ParseFields(FieldsOf(n)) == Some(Shown(n))
    ensures forall i :: 0 <= i < |FieldsOf(n)| ==> IsClean(FieldsOf(n)[i])
  {
    PrintIntParses(n.id);
    PrintIntParses(n.controllerPort);
    CardsRoundTrip(n);
    CardsArePlain(n);
    PinIsClean(n.pinCode, n.accessMode);
    FieldsShowUser(n);
    ParseShown(FieldsOf(n), n);
    FieldsAreClean(n);
  }

  predicate Printable(u: User) {
    IsInt32(u.id) && IsInt32(u.controllerPort)
  }

  lemma ShownTwice(n: User)
    ensures FieldsOf(Shown(n)) == FieldsOf(n)
  {
    forall s: string
      ensures Clean(Clean(s)) == Clean(s)
    {
      CleanIsClean(s);
      CleanIsClean(Clean(s));
    }
  }

  /** Reading a printed row back gives the normal form of the user with its text cleaned, and printing
      that gives the row again. */
  lemma RowRoundTrip(u: User)
    requires Printable(u)
    ensures DecodeRow(Split(RowOf(u), SEP)) == Some(Shown(Normalize(u)))
    ensures RowOf(Shown(Normalize(u))) == RowOf(u)
  {
    var n := Normalize(u);
    NormalizeMakesNormal(u);
    RowOfNormal(n);
  }

  lemma RowOfNormal(n: User)
    requires Normalized(n) && Printable(n)
    ensures DecodeRow(Split(Join(FieldsOf(n), SEP), SEP)) == Some(Shown(n))
    ensures RowOf(Shown(n)) == Join(FieldsOf(n), SEP)
  {
    ParseOfFields(n);
    SplitOfJoin(FieldsOf(n), SEP);
    ShownIsNormal(n);
    NormalizeIsIdle(Shown(n));
    ShownTwice(n);
  }

  // ---- the whole list ----

  const COLUMNS := ["id", "enabled", "last_name", "first_name", "middle_name", "department", "position", "card",
                    "card_series", "card_number", "pin_code", "access_mode", "controller_port", "valid_from", "valid_until",
                    "telegram_arrival", "telegram_departure", "cards"]

  /** The lines getline yields: a final line end opens no further line. */
  function Lines(s: string): seq<string>
    decreases |s|
  {
    if s == "" then []
    else
      var k := Find(s, EOL);
      if k == |s| then [s] else [s[..k]] + Lines(s[k + 1..])
  }

  /** Every line with its line end. */
  function TextOf(lines: seq<string>): string {
    if lines == [] then "" else lines[0] + [EOL] + TextOf(lines[1..])
  }

  function RowLines(users: seq<User>): seq<string> {
    seq(|users|, i requires 0 <= i < |users| => RowOf(users[i]))
  }

  function Export(users: seq<User>): string {
    TextOf([Join(COLUMNS, SEP)] + RowLines(users))
  }

  function DecodeLine(line: string): Option<User> {
    DecodeRow(Split(line, SEP))
  }

  /** Blank lines are passed over; the first bad line spoils the import. */
  function ImportRows(lines: seq<string>, decode: string -> Option<User>): Option<seq<User>> {
    if lines == [] then Some([])
    else if Trim(lines[0]) == "" then ImportRows(lines[1..], decode)
    else
      var u, rest := decode(lines[0]), ImportRows(lines[1..], decode);
      if u.Some? && rest.Some? then Some([u.value] + rest.value) else None
  }

  /** The first line is never read as a user. */
  function ImportWith(csv: string, decode: string -> Option<User>): Option<seq<User>> {
    var lines := Lines(csv);
    ImportRows(if lines == [] then [] else lines[1..], decode)
  }

  function Import(csv: string): Option<seq<User>> {
    ImportWith(csv, DecodeLine)
  }

  function ShownAll(users: seq<User>): seq<User> {
    seq(|users|, i requires 0 <= i < |users| => Shown(Normalize(users[i])))
  }

  lemma JoinStart(fs: seq<string>, d: char)
    requires fs != [] && fs[0] != ""
    ensures Join(fs, d) != "" && Join(fs, d)[0] == fs[0][0]
  {
  }

  lemma NotBlank(s: string)
    requires s != "" && !IsSpace(s[0])
    ensures Trim(s) != ""
  {
    TrimRightKeepsStart(s);
  }

  /** A row is one line, and not a blank one. */
  lemma RowIsOneLine(u: User)
    requires Printable(u)
    ensures EOL !in RowOf(u) && Trim(RowOf(u)) != ""
  {
    var n := Normalize(u);
    NormalizeMakesNormal(u);
    ParseOfFields(n);
    JoinLacks(FieldsOf(n), SEP, EOL);
    PrintIntParses(n.id);
    JoinStart(FieldsOf(n), SEP);
    NotBlank(RowOf(u));
  }

  lemma LineStep(a: string, rest: string, s: string)
    requires EOL !in a && s == a + [EOL] + rest
    ensures Lines(s) == [a] + Lines(rest)
  {
    FindInConcat(a, EOL, rest);
    assert s[..|a|] == a && s[|a| + 1..] == rest;
  }

  /** A line that is read as this user. */
  ghost predicate ReadAs(line: string, v: User, decode: string -> Option<User>) {
    EOL !in line && Trim(line) != "" && decode(line) == Some(v)
  }

  lemma {:induction false} LinesOfText(lines: seq<string>)
    requires forall i :: 0 <= i < |lines| ==> EOL !in lines[i]
    ensures Lines(TextOf(lines)) == lines
  {
    if lines != [] {
      LinesOfText(lines[1..]);
      LineStep(lines[0], TextOf(lines[1..]), TextOf(lines));
    }
  }

  lemma {:induction false} RowsImport(lines: seq<string>, users: seq<User>, decode: string -> Option<User>)
    requires |lines| == |users| && forall i :: 0 <= i < |lines| ==> ReadAs(lines[i], users[i], decode)
    ensures ImportRows(lines, decode) == Some(users)
  {
    if lines != [] {
      assert ReadAs(lines[0], users[0], decode);
      RowsImport(lines[1..], users[1..], decode);
      assert users == [users[0]] + users[1..];
    }
  }

  lemma TextImports(header: string, lines: seq<string>, users: seq<User>, decode: string -> Option<User>)
    requires |lines| == |users| && forall i :: 0 <= i < |lines| ==> ReadAs(lines[i], users[i], decode)
    requires EOL !in header
    ensures ImportWith(TextOf([header] + lines), decode) == Some(users)
  {
    var all := [header] + lines;
    assert forall i :: 0 <= i < |lines| ==> all[i + 1] == lines[i] && ReadAs(lines[i], users[i], decode);
    LinesOfText(all);
    assert all[1..] == lines;
    RowsImport(lines, users, decode);
  }

  lemma RowIsReadAs(u: User)
    requires Printable(u)
    ensures ReadAs(RowOf(u), Shown(Normalize(u)), DecodeLine)
  {
    RowRoundTrip(u);
    RowIsOneLine(u);
  }

  lemma HeaderIsOneLine()
    ensures EOL !in Join(COLUMNS, SEP)
  {
    JoinLacks(COLUMNS, SEP, EOL);
  }

  lemma RowsAgain(users: seq<User>)
    requires forall i :: 0 <= i < |users| ==> Printable(users[i])
    ensures RowLines(ShownAll(users)) == RowLines(users)
  {
    forall i | 0 <= i < |users|
      ensures RowLines(ShownAll(users))[i] == RowLines(users)[i]
    {
      RowRoundTrip(users[i]);
    }
  }

  /** Importing an export gives every user back in normal form with cleaned text, and exporting that
      gives the same file. */
  lemma ExportImport(users: seq<User>)
    requires forall i :: 0 <= i < |users| ==> Printable(users[i])
    ensures Import(Export(users)) == Some(ShownAll(users))
    ensures Export(ShownAll(users)) == Export(users)
  {
    forall i | 0 <= i < |users|
      ensures ReadAs(RowLines(users)[i], ShownAll(users)[i], DecodeLine)
    {
      RowIsReadAs(users[i]);
    }
    HeaderIsOneLine();
    TextImports(Join(COLUMNS, SEP), RowLines(users), ShownAll(users), DecodeLine);
    RowsAgain(users);
  }
}
