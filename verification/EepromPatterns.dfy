/** The encodings of a card that an EEPROM search looks for, and searching for them. */
module EepromPatterns {
  import opened Sequences
  import opened Bytes
  import opened Text
  import opened CardText

  /** What a pattern stands for: an encoding of the card, or the record of a user address. */
  datatype Label = Encoding(name: string) | CompactUser(address: int)

  datatype Pattern = Pattern(kind: Label, bytes: seq<byte>, exact: bool)

  const OVERLAP := 12
  const IMAGE := 65536

  function BigEndian(v: nat, n: nat): (r: seq<byte>)
    ensures |r| == n
  {
    if n == 0 then [] else BigEndian(v / 256, n - 1) + [v % 256]
  }

  function LittleEndian(v: nat, n: nat): (r: seq<byte>)
    ensures |r| == n
  {
    if n == 0 then [] else [v % 256] + LittleEndian(v / 256, n - 1)
  }

  /** Decimal digits, with zeros in front up to the width. */
  function Padded(n: nat, width: nat): (s: string)
    ensures AllDigits(s) && |s| >= width
  {
    Zeros(width, PrintNat(n))
  }

  function Zeros(width: nat, s: string): (t: string)
    requires AllDigits(s)
    ensures AllDigits(t) && |t| == if |s| >= width then |s| else width
    decreases width - |s|
  {
    if |s| >= width then s else Zeros(width, "0" + s)
  }

  /** Two digits a byte. */
  function Bcd(digits: string): (r: seq<byte>)
    requires AllDigits(digits)
    ensures |r| == (|digits| + 1) / 2
    decreases |digits| % 2, |digits|
  {
    if |digits| % 2 == 1 then Bcd("0" + digits)
    else if digits == [] then []
    else [(digits[0] as int - '0' as int) * 16 + (digits[1] as int - '0' as int)] + Bcd(digits[2..])
  }

  function Ascii(s: string): (r: seq<byte>)
    requires forall i :: 0 <= i < |s| ==> s[i] as int < 256
    ensures |r| == |s|
  {
    seq(|s|, i requires 0 <= i < |s| => s[i] as int)
  }

  predicate SameBytes(p: Pattern, q: Pattern) {
    p.bytes == q.bytes && p.exact == q.exact
  }

  /** Adds a pattern unless it is empty or its bytes are there already. */
  function Add(ps: seq<Pattern>, p: Pattern): seq<Pattern> {
    if p.bytes == [] || exists i :: 0 <= i < |ps| && SameBytes(ps[i], p) then ps else ps + [p]
  }

  function AddAll(ps: seq<Pattern>, more: seq<Pattern>): seq<Pattern> {
    if more == [] then ps else Add(AddAll(ps, more[..|more| - 1]), more[|more| - 1])
  }

  function SmallSeries(s: word, n: word): seq<Pattern> {
    if s <= 255 then
      [Pattern(Encoding("S8+N16 BE"), [s] + BigEndian(n, 2), true), Pattern(Encoding("S8+N16 LE"), [s] + LittleEndian(n, 2), true)]
    else []
  }

  function Decimal(s: word, n: word): seq<Pattern> {
    var v := s * 100000 + n;
    if v <= 0xFFFFFFFF then
      [Pattern(Encoding("DEC(series*100000+number) BE"), BigEndian(v, 4), true),
       Pattern(Encoding("DEC(series*100000+number) LE"), LittleEndian(v, 4), true)]
    else []
  }

  lemma AsciiOfCard(s: word, n: word)
    ensures forall i :: 0 <= i < |FormatCardId(CardId(s, n))| ==> FormatCardId(CardId(s, n))[i] as int < 256
  {
  }

  function Candidates(s: word, n: word): seq<Pattern> {
    AsciiOfCard(s, n);
    [Pattern(Encoding("S16+N16 BE"), BigEndian(s, 2) + BigEndian(n, 2), true),
     Pattern(Encoding("S16+N16 LE"), LittleEndian(s, 2) + LittleEndian(n, 2), true)]
    + SmallSeries(s, n)
    + Decimal(s, n)
    + [Pattern(Encoding("BCD 3+5"), Bcd(Padded(s, 3) + Padded(n, 5)), true),
       Pattern(Encoding("BCD 5+5"), Bcd(Padded(s, 5) + Padded(n, 5)), true),
       Pattern(Encoding("ASCII series:number"), Ascii(FormatCardId(CardId(s, n))), true),
       Pattern(Encoding("N16 BE (partial)"), BigEndian(n, 2), false),
       Pattern(Encoding("N16 LE (partial)"), LittleEndian(n, 2), false)]
  }

  function CardPatterns(s: word, n: word): seq<Pattern> {
    AddAll([], Candidates(s, n))
  }

  /** A pattern that a block read with its overlap cannot miss. */
  predicate Fits(p: Pattern) {
    1 <= |p.bytes| <= OVERLAP + 1
  }

  ghost predicate AllFit(ps: seq<Pattern>) {
    forall i :: 0 <= i < |ps| ==> Fits(ps[i])
  }

  ghost predicate NoSameBytes(ps: seq<Pattern>) {
    forall i, j :: 0 <= i < j < |ps| ==> !SameBytes(ps[i], ps[j])
  }

  lemma {:induction false} PrintedLength(n: nat, k: nat, limit: nat)
    requires k >= 1 && limit == Power10(k) && n < limit
    ensures |PrintNat(n)| <= k
  {
    if n >= 10 {
      assert k >= 2 by {
        assert Power10(1) == 10;
      }
      assert Power10(k) == 10 * Power10(k - 1);
      PrintedLength(n / 10, k - 1, Power10(k - 1));
    }
  }

  function Power10(k: nat): nat {
    if k == 0 then 1 else 10 * Power10(k - 1)
  }

  lemma WordLength(n: word)
    ensures 1 <= |PrintNat(n)| <= 5
  {
    assert Power10(5) == 100000 by {
      assert Power10(3) == 1000;
    }
    PrintedLength(n, 5, 100000);
  }

  lemma PaddedLength(n: word, width: nat)
    requires width <= 5
    ensures |Padded(n, width)| <= 5
  {
    WordLength(n);
  }

  lemma CandidatesFit(s: word, n: word)
    ensures AllFit(Candidates(s, n))
  {
    WordLength(s);
    WordLength(n);
    PaddedLength(s, 3);
    PaddedLength(s, 5);
    PaddedLength(n, 5);
    assert |FormatCardId(CardId(s, n))| <= 11;
    assert AllFit(SmallSeries(s, n));
    assert AllFit(Decimal(s, n));
  }

  lemma AddKeeps(ps: seq<Pattern>, p: Pattern)
    requires AllFit(ps) && NoSameBytes(ps) && Fits(p)
    ensures AllFit(Add(ps, p)) && NoSameBytes(Add(ps, p))
    ensures exists q :: q in Add(ps, p) && SameBytes(q, p)
    ensures forall q :: q in ps ==> q in Add(ps, p)
    ensures forall q :: q in Add(ps, p) ==> q in ps || q == p
  {
    if exists i :: 0 <= i < |ps| && SameBytes(ps[i], p) {
      var i :| 0 <= i < |ps| && SameBytes(ps[i], p);
      assert ps[i] in ps;
    } else {
      assert Add(ps, p) == ps + [p];
      assert p in Add(ps, p) && SameBytes(p, p);
    }
  }

  lemma {:induction false} AddAllKeeps(more: seq<Pattern>)
    requires AllFit(more)
    ensures AllFit(AddAll([], more)) && NoSameBytes(AddAll([], more))
    ensures forall p :: p in more ==> exists q :: q in AddAll([], more) && SameBytes(q, p)
    ensures forall q :: q in AddAll([], more) ==> q in more
  {
    if more != [] {
      var n := |more| - 1;
      AddAllKeeps(more[..n]);
      assert more == more[..n] + [more[n]];
      AddKeeps(AddAll([], more[..n]), more[n]);
    }
  }

  /** Every pattern of every card fits the overlap, none is listed twice, and no encoding is lost. */
  lemma CardPatternsFit(s: word, n: word)
    ensures AllFit(CardPatterns(s, n)) && NoSameBytes(CardPatterns(s, n))
    ensures forall p :: p in Candidates(s, n) ==> exists q :: q in CardPatterns(s, n) && SameBytes(q, p)
  {
    CandidatesFit(s, n);
    AddAllKeeps(Candidates(s, n));
  }

  /** The eight-byte records read by 87H, each searched for as it is. */
  function CompactPatterns(records: seq<(int, seq<byte>)>): seq<Pattern> {
    seq(|records|, i requires 0 <= i < |records| => Pattern(CompactUser(records[i].0), records[i].1, true))
  }

  function PatternsWith(s: word, n: word, records: seq<(int, seq<byte>)>): seq<Pattern> {
    CardPatterns(s, n) + CompactPatterns(records)
  }

  /** Records of eight bytes, in the increasing order of their addresses. */
  ghost predicate GoodRecords(records: seq<(int, seq<byte>)>) {
    && (forall i :: 0 <= i < |records| ==> |records[i].1| == 8)
    && forall i, j :: 0 <= i < j < |records| ==> records[i].0 < records[j].0
  }

  lemma {:induction false} AddedLabels(more: seq<Pattern>)
    requires forall p :: p in more ==> p.kind.Encoding?
    ensures forall p :: p in AddAll([], more) ==> p.kind.Encoding?
  {
    if more != [] {
      AddedLabels(more[..|more| - 1]);
    }
  }

  lemma PatternsWithFit(s: word, n: word, records: seq<(int, seq<byte>)>)
    requires GoodRecords(records)
    ensures AllFit(PatternsWith(s, n, records)) && NoRepeats(PatternsWith(s, n, records))
  {
    CardPatternsFit(s, n);
    AddedLabels(Candidates(s, n));
    var ps, a := PatternsWith(s, n, records), CardPatterns(s, n);
    forall i, j | 0 <= i < j < |ps|
      ensures ps[i] != ps[j]
    {
      if j < |a| {
        assert !SameBytes(a[i], a[j]);
      } else if i < |a| {
        assert a[i] in a;
      } else {
        assert records[i - |a|].0 < records[j - |a|].0;
      }
    }
  }

  // ---- searching one block ----

  datatype Hit = Hit(node: byte, address: int, pattern: Pattern)

  predicate Occurs(data: seq<byte>, bytes: seq<byte>, pos: int) {
    0 <= pos && pos + |bytes| <= |data| && data[pos..pos + |bytes|] == bytes
  }

  /** The hits of one pattern at the positions below n. */
  function HitsOf(node: byte, start: int, p: Pattern, data: seq<byte>, n: nat): seq<Hit> {
    if n == 0 then []
    else HitsOf(node, start, p, data, n - 1) + (if Occurs(data, p.bytes, n - 1) then [Hit(node, start + n - 1, p)] else [])
  }

  /** The hits of a block: pattern by pattern, position by position, within the core. */
  function BlockHits(node: byte, start: int, core: nat, ps: seq<Pattern>, data: seq<byte>): seq<Hit> {
    if ps == [] then []
    else
      var p := ps[|ps| - 1];
      BlockHits(node, start, core, ps[..|ps| - 1], data)
      + (if p.bytes == [] then [] else HitsOf(node, start, p, data, core))
  }

  lemma {:induction false} NoHitsPastData(node: byte, start: int, p: Pattern, data: seq<byte>, n: nat, m: nat)
    requires n <= m && n + |p.bytes| > |data|
    ensures HitsOf(node, start, p, data, m) == HitsOf(node, start, p, data, n)
  {
    if n < m {
      NoHitsPastData(node, start, p, data, n, m - 1);
    }
  }

  method SearchPattern(node: byte, start: int, core: nat, p: Pattern, data: seq<byte>) returns (found: seq<Hit>)
    ensures found == HitsOf(node, start, p, data, core)
  {
    found := [];
    if |data| < |p.bytes| {
      NoHitsPastData(node, start, p, data, 0, core);
      return;
    }
    var pos := 0;
    while pos + |p.bytes| <= |data|
      invariant 0 <= pos <= core
      invariant found == HitsOf(node, start, p, data, pos)
    {
      if pos >= core {
        break;
      }
      if data[pos..pos + |p.bytes|] == p.bytes {
        found := found + [Hit(node, start + pos, p)];
      }
      pos := pos + 1;
    }
    if pos < core {
      NoHitsPastData(node, start, p, data, pos, core);
    }
  }

  method SearchBlock(node: byte, start: int, core: nat, ps: seq<Pattern>, data: seq<byte>) returns (found: seq<Hit>)
    ensures found == BlockHits(node, start, core, ps, data)
  {
    found := [];
    for i := 0 to |ps|
      invariant found == BlockHits(node, start, core, ps[..i], data)
    {
      assert ps[..i + 1][..i] == ps[..i];
      if ps[i].bytes != [] {
        var more := SearchPattern(node, start, core, ps[i], data);
        found := found + more;
      }
    }
    assert ps[..|ps|] == ps;
  }

  lemma {:induction false} HitsOfMeaning(node: byte, start: int, p: Pattern, data: seq<byte>, n: nat, h: Hit)
    ensures h in HitsOf(node, start, p, data, n) <==>
      h.node == node && h.pattern == p && start <= h.address < start + n && Occurs(data, p.bytes, h.address - start)
  {
    if n > 0 {
      HitsOfMeaning(node, start, p, data, n - 1, h);
    }
  }

  lemma {:induction false} HitsOfDoNotRepeat(node: byte, start: int, p: Pattern, data: seq<byte>, n: nat)
    ensures NoRepeats(HitsOf(node, start, p, data, n))
  {
    if n > 0 {
      HitsOfDoNotRepeat(node, start, p, data, n - 1);
      var before := HitsOf(node, start, p, data, n - 1);
      forall i | 0 <= i < |before|
        ensures before[i].address < start + n - 1
      {
        HitsOfMeaning(node, start, p, data, n - 1, before[i]);
      }
    }
  }

  lemma {:induction false} BlockHitsMeaning(node: byte, start: int, core: nat, ps: seq<Pattern>, data: seq<byte>,
                                            h: Hit)
    requires AllFit(ps)
    ensures h in BlockHits(node, start, core, ps, data) <==>
      h.node == node && h.pattern in ps && start <= h.address < start + core && Occurs(data, h.pattern.bytes, h.address - start)
  {
    if ps != [] {
      var n := |ps| - 1;
      BlockHitsMeaning(node, start, core, ps[..n], data, h);
      HitsOfMeaning(node, start, ps[n], data, core, h);
      assert ps == ps[..n] + [ps[n]];
    }
  }

  lemma {:induction false} BlockHitsDoNotRepeat(node: byte, start: int, core: nat, ps: seq<Pattern>, data: seq<byte>)
    requires AllFit(ps) && NoRepeats(ps)
    ensures NoRepeats(BlockHits(node, start, core, ps, data))
  {
    if ps != [] {
      var n := |ps| - 1;
      BlockHitsDoNotRepeat(node, start, core, ps[..n], data);
      var a, b := BlockHits(node, start, core, ps[..n], data), HitsOf(node, start, ps[n], data, core);
      forall i, j | 0 <= i < |a| && 0 <= j < |b|
        ensures a[i] != b[j]
      {
        BlockHitsMeaning(node, start, core, ps[..n], data, a[i]);
        HitsOfMeaning(node, start, ps[n], data, core, b[j]);
        assert ps[n] !in ps[..n];
      }
      HitsOfDoNotRepeat(node, start, ps[n], data, core);
    }
  }

  /** How much is read for a core of this length: the overlap is cut short only by the end of the
      image. */
  function ReadLength(start: nat, core: nat): int {
    Min(core + OVERLAP, IMAGE - start)
  }

  /** With its overlap, a block shows every occurrence that starts in its core, also one that crosses
      into the next block, and no other. */
  lemma BlockSeesImage(image: seq<byte>, start: nat, core: nat, p: Pattern, a: int)
    requires |image| == IMAGE && start + core <= IMAGE && Fits(p)
    requires start <= a < start + core
    ensures Occurs(image[start..start + ReadLength(start, core)], p.bytes, a - start) <==> Occurs(image, p.bytes, a)
  {
    var n := ReadLength(start, core);
    if a + |p.bytes| <= IMAGE {
      assert a - start + |p.bytes| <= n;
      SliceOfSlice(image, start, start + n, a - start, a - start + |p.bytes|);
    }
  }

  // ---- the blocks of a range ----

  function Starts(start: int, end: int, block: nat): seq<int>
    requires block >= 1
    decreases end - start
  {
    if start > end then [] else [start] + Starts(start + block, end, block)
  }

  function Core(start: int, end: int, block: nat): int {
    Min(block, end - start + 1)
  }

  lemma {:induction false} StartsCount(start: int, end: int, block: nat)
    requires block >= 1 && start <= end
    ensures |Starts(start, end, block)| == (end - start + block) / block
    decreases end - start
  {
    DivStep(end - start, block);
    if start + block <= end {
      StartsCount(start + block, end, block);
    } else {
      assert Starts(start + block, end, block) == [];
      DivSmall(end - start, block);
    }
  }

  lemma DivStep(x: nat, b: nat)
    requires b >= 1
    ensures (x + b) / b == x / b + 1
  {
    var q, r := x / b, x % b;
    assert x == q * b + r;
    assert x + b == (q + 1) * b + r;
    QuotientIs(x + b, b, q + 1, r);
  }

  lemma DivSmall(x: nat, b: nat)
    requires x < b
    ensures x / b == 0
  {
    QuotientIs(x, b, 0, x);
  }

  lemma Multiples(d: int, b: nat)
    ensures d >= 1 ==> d * b >= b
    ensures d <= -1 ==> d * b + b <= 0
  {
    if d >= 1 {
      assert (d - 1) * b >= 0;
    } else if d <= -1 {
      assert (-d - 1) * b >= 0;
    }
  }

  lemma QuotientIs(x: nat, b: nat, q: nat, r: nat)
    requires r < b && x == q * b + r
    ensures x / b == q
  {
    var d := x / b - q;
    assert x == (x / b) * b + x % b;
    assert d * b == r - x % b;
    Multiples(d, b);
  }

  /** Each address of the range lies in the core of exactly one block. */
  lemma {:induction false} BlocksCover(start: int, end: int, block: nat, a: int)
    requires block >= 1
    ensures start <= a <= end <==>
      exists s :: s in Starts(start, end, block) && s <= a < s + Core(s, end, block)
    ensures forall s :: s in Starts(start, end, block) ==> start <= s <= end && Core(s, end, block) >= 1
    decreases end - start
  {
    if start <= end {
      BlocksCover(start + block, end, block, a);
      assert start in Starts(start, end, block);
      assert forall s :: s in Starts(start, end, block) <==> s == start || s in Starts(start + block, end, block);
    }
  }

  ghost predicate Spaced(ss: seq<int>, block: nat) {
    forall i, j :: 0 <= i < j < |ss| ==> ss[i] + block <= ss[j]
  }

  lemma {:induction false} StartsIncrease(start: int, end: int, block: nat)
    requires block >= 1
    ensures Spaced(Starts(start, end, block), block)
    ensures forall s :: s in Starts(start, end, block) ==> start <= s <= end
    decreases end - start
  {
    if start <= end {
      StartsIncrease(start + block, end, block);
      var rest := Starts(start + block, end, block);
      forall j | 0 <= j < |rest|
        ensures start + block <= rest[j]
      {
        assert rest[j] in rest;
      }
    }
  }
}
