module Wrappers {
  datatype Option<+T> = None | Some(value: T)
}

/** Scanning and printing of text: trim, split, decimal numbers. */
module Text {
  import opened Wrappers

  predicate IsSpace(c: char) {
    c == ' ' || 9 <= c as int <= 13
  }

  predicate IsDigit(c: char) {
    '0' <= c <= '9'
  }

  function TrimLeft(s: string): (t: string)
    ensures |t| <= |s|
  {
    if s != [] && IsSpace(s[0]) then TrimLeft(s[1..]) else s
  }

  function TrimRight(s: string): (t: string)
    ensures |t| <= |s|
  {
    if s != [] && IsSpace(s[|s| - 1]) then TrimRight(s[..|s| - 1]) else s
  }

  function Trim(s: string): string {
    TrimRight(TrimLeft(s))
  }

  /** No white space at either end. */
  predicate Trimmed(s: string) {
    s == [] || (!IsSpace(s[0]) && !IsSpace(s[|s| - 1]))
  }

  lemma {:induction false} TrimRightKeepsStart(s: string)
    requires s != [] && !IsSpace(s[0])
    ensures TrimRight(s) != [] && TrimRight(s)[0] == s[0]
    ensures !IsSpace(TrimRight(s)[|TrimRight(s)| - 1])
    decreases |s|
  {
    if IsSpace(s[|s| - 1]) {
      TrimRightKeepsStart(s[..|s| - 1]);
    }
  }

  lemma {:induction false} TrimLeftStart(s: string)
    ensures TrimLeft(s) == [] || !IsSpace(TrimLeft(s)[0])
    decreases |s|
  {
    if s != [] && IsSpace(s[0]) {
      TrimLeftStart(s[1..]);
    }
  }

  lemma TrimIsTrimmed(s: string)
    ensures Trimmed(Trim(s))
    ensures Trimmed(s) ==> Trim(s) == s
  {
    TrimLeftStart(s);
    if TrimLeft(s) != [] {
      TrimRightKeepsStart(TrimLeft(s));
    }
  }

  predicate AllDigits(s: string) {
    forall i :: 0 <= i < |s| ==> IsDigit(s[i])
  }

  function DecimalValue(s: string): nat
    requires AllDigits(s)
  {
    if s == [] then 0 else 10 * DecimalValue(s[..|s| - 1]) + (s[|s| - 1] as int - '0' as int)
  }

  /** A decimal number of at most `max`, with white space around it. */
  function ParseUnsigned(text: string, max: nat): (r: Option<nat>)
    ensures r.Some? ==> r.value <= max
  {
    var s := Trim(text);
    if s != [] && AllDigits(s) && DecimalValue(s) <= max then Some(DecimalValue(s)) else None
  }

  method ScanUnsigned(text: string, max: nat) returns (r: Option<nat>)
    ensures r == ParseUnsigned(text, max)
  {
    var s := Trim(text);
    if s == [] {
      return None;
    }
    var i := 0;
    var v := 0;
    while i < |s|
      invariant 0 <= i <= |s|
      invariant AllDigits(s[..i])
      invariant v == DecimalValue(s[..i])
    {
      if !IsDigit(s[i]) {
        return None;
      }
      assert s[..i + 1][..i] == s[..i];
      v := 10 * v + (s[i] as int - '0' as int);
      i := i + 1;
    }
    assert s[..|s|] == s;
    return if v > max then None else Some(v);
  }

  function Digit(d: nat): char
    requires d < 10
  {
    '0' + d as char
  }

  function PrintNat(n: nat): (s: string)
    ensures s != [] && AllDigits(s)
  {
    if n < 10 then [Digit(n)] else PrintNat(n / 10) + [Digit(n % 10)]
  }

  lemma {:induction false} PrintNatValue(n: nat)
    ensures DecimalValue(PrintNat(n)) == n
  {
    if n >= 10 {
      PrintNatValue(n / 10);
      assert PrintNat(n)[..|PrintNat(n)| - 1] == PrintNat(n / 10);
    }
  }

  lemma DigitsAreTrimmed(s: string)
    requires AllDigits(s)
    ensures Trim(s) == s
  {
    TrimIsTrimmed(s);
  }

  lemma ParsePrinted(n: nat, max: nat)
    ensures ParseUnsigned(PrintNat(n), max) == if n <= max then Some(n) else None
  {
    PrintNatValue(n);
    DigitsAreTrimmed(PrintNat(n));
  }

  /** The position of the first d in s, or |s|. */
  function Find(s: string, d: char): (k: nat)
    ensures k <= |s|
    ensures k < |s| ==> s[k] == d
    ensures forall i :: 0 <= i < k ==> s[i] != d
  {
    if s == [] || s[0] == d then 0 else 1 + Find(s[1..], d)
  }

  /** The fields between the separators of s; nothing at all for the empty text. */
  function Split(s: string, d: char): seq<string> {
    if s == [] then [] else Fields(s, d)
  }

  function Fields(s: string, d: char): (fs: seq<string>)
    ensures fs != []
    decreases |s|
  {
    var k := Find(s, d);
    if k == |s| then [s] else [s[..k]] + Fields(s[k + 1..], d)
  }

  function Join(fs: seq<string>, d: char): string {
    if fs == [] then [] else if |fs| == 1 then fs[0] else fs[0] + [d] + Join(fs[1..], d)
  }

  /** The fields that are still to come: those of the rest, or a last empty one. */
  function Rest(rest: string, d: char, open: bool): seq<string> {
    if rest != [] then Fields(rest, d) else if open then [""] else []
  }

  /** One getline: a field ends at a separator or at the end of the text. */
  method GetLine(rest: string, d: char) returns (field: string, next: string, open: bool)
    requires rest != []
    ensures |next| < |rest| && Fields(rest, d) == [field] + Rest(next, d, open)
    ensures if next == [] then open <==> rest[|rest| - 1] == d else next[|next| - 1] == rest[|rest| - 1]
  {
    var k := Find(rest, d);
    FirstField(rest, d, k);
    field := rest[..k];
    open := k < |rest|;
    next := if open then rest[k + 1..] else [];
  }

  lemma FirstField(rest: string, d: char, k: nat)
    requires rest != [] && k == Find(rest, d)
    ensures Fields(rest, d) == [rest[..k]] + Rest(if k < |rest| then rest[k + 1..] else [], d, k < |rest|)
  {
    if k < |rest| {
      LastField(rest[k + 1..], d);
    } else {
      assert rest[..k] == rest;
    }
  }

  lemma LastField(next: string, d: char)
    ensures Fields(next, d) == Rest(next, d, true)
  {
    if next == [] {
      assert Find(next, d) == 0;
    }
  }

  /** The getline loop; a final separator is followed by one more, empty, field. */
  method SplitLoop(s: string, d: char) returns (v: seq<string>)
    ensures v == Split(s, d)
  {
    v := [];
    if s == [] {
      return;
    }
    var rest, open := s, false;
    while rest != []
      invariant Fields(s, d) == v + Rest(rest, d, open)
      invariant if rest == [] then open <==> s[|s| - 1] == d else s[|s| - 1] == rest[|rest| - 1]
      decreases |rest|
    {
      var field, next;
      field, next, open := GetLine(rest, d);
      assert v + ([field] + Rest(next, d, open)) == v + [field] + Rest(next, d, open);
      v, rest := v + [field], next;
    }
    if s[|s| - 1] == d {
      v := v + [""];
    }
  }

  lemma FindInConcat(a: string, d: char, b: string)
    requires d !in a
    ensures Find(a + [d] + b, d) == |a|
    ensures Find(a, d) == |a|
  {
    var s := a + [d] + b;
    assert s[|a|] == d;
    assert forall i :: 0 <= i < |a| ==> s[i] == a[i];
  }

  lemma FieldsStep(a: string, d: char, rest: string, s: string)
    requires d !in a && s == a + [d] + rest
    ensures Fields(s, d) == [a] + Fields(rest, d)
  {
    FindInConcat(a, d, rest);
    assert s[..|a|] == a && s[|a| + 1..] == rest;
  }

  lemma {:induction false} FieldsOfJoin(fs: seq<string>, d: char)
    requires fs != [] && forall i :: 0 <= i < |fs| ==> d !in fs[i]
    ensures Fields(Join(fs, d), d) == fs
    decreases |fs|
  {
    if |fs| == 1 {
      FindInConcat(fs[0], d, []);
    } else {
      FieldsStep(fs[0], d, Join(fs[1..], d), Join(fs, d));
      FieldsOfJoin(fs[1..], d);
    }
  }

  /** Splitting undoes joining, a trailing empty field included; only one empty field on its own
      is lost. */
  lemma SplitOfJoin(fs: seq<string>, d: char)
    requires forall i :: 0 <= i < |fs| ==> d !in fs[i]
    ensures Split(Join(fs, d), d) == fs <==> fs != [""]
  {
    if fs != [] {
      FieldsOfJoin(fs, d);
      if |fs| > 1 {
        assert d in Join(fs, d);
      }
    }
  }

  lemma {:induction false} JoinOfSplit(s: string, d: char)
    ensures Join(Fields(s, d), d) == s
    ensures Join(Split(s, d), d) == s
    ensures forall i :: 0 <= i < |Fields(s, d)| ==> d !in Fields(s, d)[i]
    decreases |s|
  {
    var k := Find(s, d);
    if k < |s| {
      JoinOfSplit(s[k + 1..], d);
      assert s == s[..k] + [d] + s[k + 1..];
    }
  }
}

/** Physical card numbers and their spellings. */
module CardText {
  import opened Wrappers
  import opened Text

  type word = x: int | 0 <= x < 65536

  /** A physical card: the printed series and number. */
  datatype CardId = CardId(series: word, number: word)

  const SEPARATORS := ":/,"

  function FindSeparator(s: string): (k: nat)
    ensures k <= |s|
    ensures k < |s| ==> s[k] in SEPARATORS
    ensures forall i :: 0 <= i < k ==> s[i] !in SEPARATORS
  {
    if s == [] || s[0] in SEPARATORS then 0 else 1 + FindSeparator(s[1..])
  }

  function ParseCardParts(series: string, number: string): Option<CardId> {
    var a := ParseUnsigned(series, 65535);
    var b := ParseUnsigned(number, 65535);
    if a.Some? && b.Some? then Some(CardId(a.value, b.value)) else None
  }

  /** SERIES:NUMBER, or the old single decimal value. */
  function ParseCardId(text: string): Option<CardId> {
    var s := Trim(text);
    var k := FindSeparator(s);
    if k < |s| then ParseCardParts(s[..k], s[k + 1..])
    else
      var v := ParseUnsigned(s, 0xFFFFFFFF);
      if v.None? then None
      else if v.value <= 65535 then Some(CardId(v.value, 0))
      else Some(CardId(v.value / 65536, v.value % 65536))
  }

  function FormatCardId(c: CardId): string {
    PrintNat(c.series) + ":" + PrintNat(c.number)
  }

  /** The one spelling under which a card is stored; empty when the text denotes no card. */
  function CanonicalCard(text: string): string {
    var c := ParseCardId(Trim(text));
    if c.Some? then FormatCardId(c.value) else ""
  }

  predicate SameCard(a: string, b: string) {
    a == b || (ParseCardId(a).Some? && ParseCardId(a) == ParseCardId(b))
  }

  lemma FormatShape(c: CardId)
    ensures Trim(FormatCardId(c)) == FormatCardId(c)
    ensures FindSeparator(FormatCardId(c)) == |PrintNat(c.series)|
  {
    var s := FormatCardId(c);
    TrimIsTrimmed(s);
    assert s[|PrintNat(c.series)|] == ':';
    assert forall i :: 0 <= i < |PrintNat(c.series)| ==> s[i] == PrintNat(c.series)[i];
  }

  /** Reading back a printed card gives the card. */
  lemma CardRoundTrip(c: CardId)
    ensures ParseCardId(FormatCardId(c)) == Some(c)
    ensures FormatCardId(c) != ""
  {
    var s, k := FormatCardId(c), |PrintNat(c.series)|;
    FormatShape(c);
    assert s[..k] == PrintNat(c.series) && s[k + 1..] == PrintNat(c.number);
    ParsePrinted(c.series, 65535);
    ParsePrinted(c.number, 65535);
  }

  lemma ParseTrimmed(s: string)
    ensures ParseCardId(Trim(s)) == ParseCardId(s)
  {
    TrimIsTrimmed(s);
    TrimIsTrimmed(Trim(s));
  }

  lemma CanonicalOf(a: string)
    ensures CanonicalCard(a) == match ParseCardId(a) case Some(c) => FormatCardId(c) case None => ""
  {
    ParseTrimmed(a);
  }

  lemma CanonicalMeaning(a: string)
    ensures ParseCardId(CanonicalCard(a)) == ParseCardId(a)
    ensures CanonicalCard(a) == "" <==> ParseCardId(a).None?
  {
    CanonicalOf(a);
    match ParseCardId(a)
    case Some(c) => CardRoundTrip(c);
    case None => assert Trim("") == "" && ParseCardId("").None?;
  }

  /** Two accepted spellings have one canonical form exactly when they denote one card, and the
      canonical form is its own canonical form. */
  lemma CanonicalIsCanonical(a: string, b: string)
    ensures CanonicalCard(CanonicalCard(a)) == CanonicalCard(a)
    ensures CanonicalCard(a) == CanonicalCard(b) <==> ParseCardId(a) == ParseCardId(b)
  {
    CanonicalMeaning(a);
    CanonicalMeaning(b);
    CanonicalOf(a);
    CanonicalOf(b);
    CanonicalOf(CanonicalCard(a));
  }
}
