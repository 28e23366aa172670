/** Reading frames off the serial line. The line is the sequence of bytes that will arrive before
    the next silence longer than the timeout; a read past its end times out. */
module SerialLine {
  import opened Bytes
  import opened Framing

  const SCAN_STANDARD := 64
  const SCAN_EXTENDED := 256
  const MAX_STANDARD := 250

  /** The position of the first b in s, or |s|. */
  function IndexOf(s: seq<byte>, b: byte): (k: nat)
    ensures k <= |s|
    ensures forall i :: 0 <= i < k ==> s[i] != b
    ensures k < |s| ==> s[k] == b
  {
    if s == [] || s[0] == b then 0 else 1 + IndexOf(s[1..], b)
  }

  /** Whether the magic word stands at position k of s. */
  predicate MagicAt(s: seq<byte>, k: nat) {
    k + 4 <= |s| && s[k..k + 4] == MAGIC
  }

  /** The first position at which the magic word stands, or |s|. */
  function FirstMagic(s: seq<byte>, from: nat := 0): (k: nat)
    requires from <= |s|
    ensures from <= k <= |s|
    ensures forall i: nat :: from <= i < k ==> !MagicAt(s, i)
    ensures k < |s| ==> MagicAt(s, k)
    decreases |s| - from
  {
    if from == |s| || MagicAt(s, from) then from else FirstMagic(s, from + 1)
  }

  /** The frame whose header announced `len` more bytes, and what is left of the line after it. */
  function Body(header: seq<byte>, rest: seq<byte>, len: nat, lo: nat, hi: nat): (seq<byte>, seq<byte>) {
    if len < lo || len > hi then ([], rest)
    else if |rest| < len then ([], [])
    else (header + rest[..len], rest[len..])
  }

  /** The frame that starts at the first 0x7E among the first 64 bytes, and the rest of the line. */
  function FirstFrame(s: seq<byte>): (seq<byte>, seq<byte>) {
    var k := IndexOf(s, START);
    if k >= SCAN_STANDARD then ([], s[SCAN_STANDARD..])
    else if |s| < k + 2 then ([], [])
    else Body([START, s[k + 1]], s[k + 2..], s[k + 1], 1, MAX_STANDARD)
  }

  function AfterMagic(s: seq<byte>): (seq<byte>, seq<byte>) {
    if |s| < 2 then ([], [])
    else Body(MAGIC + s[..2], s[2..], Word(s[0], s[1]), 4, MAX_EXTENDED)
  }

  /** The frame that starts at the first magic word within the first 256 bytes, and the rest. */
  function FirstExtendedFrame(s: seq<byte>): (seq<byte>, seq<byte>) {
    var k := FirstMagic(s);
    if k + 4 <= |s| && k + 4 <= SCAN_EXTENDED then AfterMagic(s[k + 4..])
    else ([], s[Min(SCAN_EXTENDED, |s|)..])
  }

  /** The last m bytes of s are the first m of the magic word. */
  predicate EndsWithPrefix(s: seq<byte>, m: nat) {
    m <= 4 && m <= |s| && s[|s| - m..] == MAGIC[..m]
  }

  /** The automaton state after reading s: m bytes of the magic word end s, and no more do. */
  ghost predicate LongestMatch(s: seq<byte>, m: nat) {
    EndsWithPrefix(s, m) && forall j: nat :: m < j ==> !EndsWithPrefix(s, j)
  }

  function NextMatch(m: nat, b: byte): nat
    requires m < 4
  {
    if b == MAGIC[m] then m + 1 else if b == MAGIC[0] then 1 else 0
  }

  /** One step of the hand-written matcher keeps its state exact. */
  lemma MatcherStep(s: seq<byte>, m: nat, b: byte)
    requires LongestMatch(s, m) && m < 4
    ensures LongestMatch(s + [b], NextMatch(m, b))
  {
    var t, n := s + [b], NextMatch(m, b);
    assert EndsWithPrefix(t, n) by {
      if n == m + 1 {
        assert t[|t| - n..] == s[|s| - m..] + [b];
        assert MAGIC[..n] == MAGIC[..m] + [MAGIC[m]];
      }
    }
    forall j: nat | n < j <= 4 && j <= |t|
      ensures !EndsWithPrefix(t, j)
    {
      var w := t[|t| - j..];
      if j - 1 > m {
        assert !EndsWithPrefix(s, j - 1);
        assert w[..j - 1] == s[|s| - (j - 1)..];
        assert MAGIC[..j][..j - 1] == MAGIC[..j - 1];
      } else if b != MAGIC[j - 1] {
        assert w[j - 1] != MAGIC[..j][j - 1];
      } else {
        assert w[0] == s[|s| - m..][m - (j - 1)] == MAGIC[m - (j - 1)] != MAGIC[0];
      }
    }
  }

  /** What the matcher knows after i bytes of s: its state, and that no magic word ended earlier. */
  ghost predicate Scanned(s: seq<byte>, i: nat, m: nat) {
    i <= |s| && LongestMatch(s[..i], m) && forall k: nat :: k + 4 < i ==> !MagicAt(s, k)
  }

  lemma ScanStep(s: seq<byte>, i: nat, m: nat)
    requires i < |s| && m < 4 && Scanned(s, i, m)
    ensures Scanned(s, i + 1, NextMatch(m, s[i]))
  {
    assert s[..i + 1] == s[..i] + [s[i]];
    MatcherStep(s[..i], m, s[i]);
    if i >= 4 {
      assert s[..i][i - 4..] == s[i - 4..i];
      assert !EndsWithPrefix(s[..i], 4);
      assert MAGIC[..4] == MAGIC;
    }
  }

  lemma ScanEnd(s: seq<byte>, i: nat, m: nat)
    requires Scanned(s, i, m)
    ensures if m == 4 then FirstMagic(s) + 4 == i else FirstMagic(s) + 4 > i
  {
    assert MAGIC[..4] == MAGIC;
    if i >= 4 {
      assert s[..i][i - 4..] == s[i - 4..i];
      if m < 4 {
        assert !EndsWithPrefix(s[..i], 4);
      } else {
        assert MagicAt(s, i - 4);
      }
    }
  }

  class SerialPort {
    var isOpen: bool
    var incoming: seq<byte>

    /** n bytes, or a timeout that has swallowed whatever came before it. */
    method ReadExact(n: nat) returns (ok: bool, bytes: seq<byte>)
      modifies this`incoming
      ensures ok == (|old(incoming)| >= n)
      ensures ok ==> bytes == old(incoming)[..n] && incoming == old(incoming)[n..]
      ensures !ok ==> bytes == [] && incoming == []
    {
      if |incoming| < n {
        incoming := [];
        return false, [];
      }
      bytes := incoming[..n];
      incoming := incoming[n..];
      ok := true;
    }

    method ReadFrame() returns (r: seq<byte>)
      modifies this`incoming
      ensures !isOpen ==> r == [] && incoming == old(incoming)
      ensures isOpen ==> (r, incoming) == FirstFrame(old(incoming))
    {
      r := [];
      if !isOpen {
        return;
      }
      ghost var s := incoming;
      var i := 0;
      while i < SCAN_STANDARD
        invariant 0 <= i < SCAN_STANDARD && i <= |s|
        invariant incoming == s[i..]
        invariant forall j :: 0 <= j < i ==> s[j] != START
      {
        var got, b := ReadExact(1);
        if !got {
          return;
        }
        assert b[0] == s[i];
        if b[0] == START {
          break;
        }
        if i == SCAN_STANDARD - 1 {
          return;
        }
        i := i + 1;
      }
      assert i == IndexOf(s, START);
      var got, len := ReadExact(1);
      if !got {
        return;
      }
      assert incoming == s[i + 2..] && len[0] == s[i + 1];
      if len[0] == 0 || len[0] > MAX_STANDARD {
        return;
      }
      var full, tail := ReadExact(len[0]);
      if full {
        r := [START, len[0]] + tail;
      }
    }

    /** Reads up to and including the magic word, if it ends within the first 256 bytes. */
    method SkipToMagic() returns (found: bool)
      modifies this`incoming
      ensures var s, k := old(incoming), FirstMagic(old(incoming));
              && found == (k + 4 <= |s| && k + 4 <= SCAN_EXTENDED)
              && incoming == if found then s[k + 4..] else s[Min(SCAN_EXTENDED, |s|)..]
    {
      ghost var s := incoming;
      var matched := 0;
      var i := 0;
      while i < SCAN_EXTENDED && matched < 4
        invariant 0 <= i <= SCAN_EXTENDED
        invariant Scanned(s, i, matched)
        invariant incoming == s[i..]
      {
        ScanEnd(s, i, matched);
        var got, b := ReadExact(1);
        if !got {
          return false;
        }
        ScanStep(s, i, matched);
        matched := NextMatch(matched, b[0]);
        i := i + 1;
      }
      ScanEnd(s, i, matched);
      found := matched == 4;
    }

    /** The length, and as many bytes. */
    method ReadLengthAndTail() returns (r: seq<byte>)
      modifies this`incoming
      ensures (r, incoming) == AfterMagic(old(incoming))
    {
      r := [];
      var got, len := ReadExact(2);
      if !got {
        return;
      }
      var n := Word(len[0], len[1]);
      if n < 4 || n > MAX_EXTENDED {
        return;
      }
      var full, tail := ReadExact(n);
      if full {
        r := MAGIC + len + tail;
      }
    }

    method ReadExtendedFrame() returns (r: seq<byte>)
      modifies this`incoming
      ensures !isOpen ==> r == [] && incoming == old(incoming)
      ensures isOpen ==> (r, incoming) == FirstExtendedFrame(old(incoming))
    {
      r := [];
      if !isOpen {
        return;
      }
      var found := SkipToMagic();
      if found {
        r := ReadLengthAndTail();
      }
    }
  }

  lemma SkipNoise(noise: seq<byte>, rest: seq<byte>)
    requires |noise| < SCAN_STANDARD && START !in noise
    requires |rest| >= 2 && rest[0] == START
    ensures FirstFrame(noise + rest) == Body([START, rest[1]], rest[2..], rest[1], 1, MAX_STANDARD)
  {
    var s, k := noise + rest, |noise|;
    assert s[k] == rest[0] && s[k + 1] == rest[1] && s[k + 2..] == rest[2..];
    assert forall i :: 0 <= i < k ==> s[i] == noise[i];
    assert IndexOf(s, START) == k;
  }

  /** After at most 63 bytes of noise without a start byte, a frame whose data fits a read comes
      through whole, and the rest of the line stays unread. */
  lemma FrameSurvivesNoise(noise: seq<byte>, node: byte, cmd: byte, data: seq<byte>, tail: seq<byte>)
    requires |noise| < SCAN_STANDARD && START !in noise
    requires |data| <= 246
    ensures FirstFrame(noise + (Frame(node, cmd, data) + tail)) == (Frame(node, cmd, data), tail)
    ensures ValidFrame(Frame(node, cmd, data))
  {
    var f := Frame(node, cmd, data);
    var rest := f + tail;
    FrameIsValid(node, cmd, data);
    SkipNoise(noise, rest);
    assert rest[2..][..|f| - 2] == f[2..] && rest[2..][|f| - 2..] == tail;
    assert f == [START, f[1]] + f[2..];
  }

  lemma SkipNoiseExtended(noise: seq<byte>, rest: seq<byte>)
    requires |noise| + 4 <= SCAN_EXTENDED
    requires forall k: nat :: !MagicAt(noise, k)
    requires MAGIC <= rest
    ensures FirstExtendedFrame(noise + rest) == AfterMagic(rest[4..])
  {
    var s, n := noise + rest, |noise|;
    assert s[n..n + 4] == rest[..4] == MAGIC && s[n + 4..] == rest[4..];
    forall k: nat | k < n
      ensures !MagicAt(s, k)
    {
      if k + 4 <= n {
        assert s[k..k + 4] == noise[k..k + 4];
        assert !MagicAt(noise, k);
      } else {
        assert s[k..k + 4][n - k] == rest[0] == MAGIC[0] != MAGIC[n - k];
      }
    }
    assert MagicAt(s, n);
    assert FirstMagic(s) == n;
  }

  /** After noise that does not hold the magic word, an extended frame comes through whole, as long
      as the magic word still ends within the 256 bytes scanned. */
  lemma ExtendedFrameSurvivesNoise(noise: seq<byte>, node: byte, cmd: byte, data: seq<byte>, tail: seq<byte>)
    requires |noise| + 4 <= SCAN_EXTENDED
    requires forall k: nat :: !MagicAt(noise, k)
    requires |data| <= 1014
    ensures var f := ExtendedFrame(node, cmd, data);
            ValidExtendedFrame(f) && FirstExtendedFrame(noise + (f + tail)) == (f, tail)
  {
    var f := ExtendedFrame(node, cmd, data);
    ExtendedFrameIsValid(node, cmd, data);
    assert f[..4] == MAGIC && MAGIC <= f + tail;
    SkipNoiseExtended(noise, f + tail);
    var t := (f + tail)[4..];
    assert t[..2] == f[4..6] && t[2..] == f[6..] + tail;
    assert (f[6..] + tail)[..|f| - 6] == f[6..] && (f[6..] + tail)[|f| - 6..] == tail;
    assert f == MAGIC + f[4..6] + f[6..];
  }
}
