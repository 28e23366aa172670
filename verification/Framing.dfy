/** The two packet formats of the controller line: the standard 0x7E frame and the extended one. */
module Framing {
  import opened Bytes

  const START: byte := 0x7E
  const MAGIC: seq<byte> := [0xFF, 0x00, 0x5A, 0xA5]
  const MAX_EXTENDED := 1018

  function XorSum(body: seq<byte>): seq<byte> {
    var x := XorFold(0xFF, body);
    [x, (SumOf(body) + x) % 256]
  }

  /** The standard frame; its length byte is truncated to eight bits. */
  function Frame(node: byte, cmd: byte, data: seq<byte>): (f: seq<byte>)
    ensures |f| == |data| + 6
  {
    var body := [node, cmd] + data;
    [START, (|body| + 2) % 256] + body + XorSum(body)
  }

  predicate ValidFrame(f: seq<byte>) {
    && |f| >= 6
    && f[0] == START
    && |f| - 2 == f[1]
    && f[|f| - 2..] == XorSum(f[2..|f| - 2])
  }

  /** The extended frame, or nothing when the length field could not hold it. */
  function ExtendedFrame(node: byte, cmd: byte, data: seq<byte>): (f: seq<byte>)
    ensures f == [] || |f| == |data| + 10
  {
    var body := [node, cmd] + data;
    var len := |body| + 2;
    if len > MAX_EXTENDED then []
    else MAGIC + [len / 256 % 256, len % 256] + body + XorSum(body)
  }

  predicate ValidExtendedFrame(f: seq<byte>) {
    && |f| >= 10
    && f[..4] == MAGIC
    && var len := Word(f[4], f[5]);
    && 4 <= len <= MAX_EXTENDED
    && |f| == len + 6
    && f[|f| - 2..] == XorSum(f[6..|f| - 2])
  }

  lemma XorFoldSnoc(x: byte, s: seq<byte>, b: byte)
    ensures XorFold(x, s + [b]) == Xor(XorFold(x, s), b)
    ensures SumOf(s + [b]) == SumOf(s) + b
  {
    assert (s + [b])[..|s|] == s;
  }

  /** The running XOR and sum over the bytes of s in [from, to). */
  method Accumulate(s: seq<byte>, from: nat, to: nat) returns (x: byte, sum: nat)
    requires from <= to <= |s|
    ensures x == XorFold(0xFF, s[from..to])
    ensures sum == SumOf(s[from..to])
  {
    x, sum := 0xFF, 0;
    var i := from;
    while i < to
      invariant from <= i <= to
      invariant x == XorFold(0xFF, s[from..i])
      invariant sum == SumOf(s[from..i])
    {
      assert s[from..i + 1] == s[from..i] + [s[i]];
      XorFoldSnoc(0xFF, s[from..i], s[i]);
      x := Xor(x, s[i]);
      sum := sum + s[i];
      i := i + 1;
    }
  }

  method BuildFrame(node: byte, cmd: byte, data: seq<byte>) returns (f: seq<byte>)
    ensures f == Frame(node, cmd, data)
  {
    var p := [node, cmd] + data;
    var x: byte, sum: nat := Accumulate(p, 0, |p|);
    assert p[0..|p|] == p;
    p := p + [x];
    sum := sum + x;
    p := p + [sum % 256];
    f := [START, |p| % 256];
    f := f + p;
  }

  method CheckFrame(f: seq<byte>) returns (ok: bool)
    ensures ok == ValidFrame(f)
  {
    if |f| < 6 || f[0] != START || |f| - 2 != f[1] {
      return false;
    }
    var x: byte, sum: nat := Accumulate(f, 2, |f| - 2);
    assert f[|f| - 2..] == [f[|f| - 2], f[|f| - 1]];
    if x != f[|f| - 2] {
      return false;
    }
    sum := sum + x;
    return sum % 256 == f[|f| - 1];
  }

  method BuildExtendedFrame(node: byte, cmd: byte, data: seq<byte>) returns (f: seq<byte>)
    ensures f == ExtendedFrame(node, cmd, data)
  {
    var len := |data| + 4;
    if len > MAX_EXTENDED {
      return [];
    }
    var p := [node, cmd] + data;
    var x: byte, sum: nat := Accumulate(p, 0, |p|);
    assert p[0..|p|] == p;
    sum := sum + x;
    f := MAGIC + [len / 256 % 256, len % 256];
    f := f + p;
    f := f + [x, sum % 256];
  }

  method CheckExtendedFrame(f: seq<byte>) returns (ok: bool)
    ensures ok == ValidExtendedFrame(f)
  {
    if |f| < 10 || f[0] != 0xFF || f[1] != 0x00 || f[2] != 0x5A || f[3] != 0xA5 {
      return false;
    }
    assert f[..4] == MAGIC;
    var len := Word(f[4], f[5]);
    if len < 4 || len > MAX_EXTENDED || |f| != len + 6 {
      return false;
    }
    var x: byte, sum: nat := Accumulate(f, 6, |f| - 2);
    assert f[|f| - 2..] == [f[|f| - 2], f[|f| - 1]];
    if x != f[|f| - 2] {
      return false;
    }
    sum := sum + x;
    return sum % 256 == f[|f| - 1];
  }

  /** A built frame passes the check exactly when its length byte did not wrap. */
  lemma FrameIsValid(node: byte, cmd: byte, data: seq<byte>)
    ensures ValidFrame(Frame(node, cmd, data)) <==> |data| <= 251
  {
    var f := Frame(node, cmd, data);
    assert f[2..|f| - 2] == [node, cmd] + data;
  }

  lemma ExtendedFrameIsValid(node: byte, cmd: byte, data: seq<byte>)
    ensures ValidExtendedFrame(ExtendedFrame(node, cmd, data)) <==> |data| <= 1014
  {
    if |data| <= 1014 {
      var f := ExtendedFrame(node, cmd, data);
      var len := |data| + 4;
      assert f[4] == len / 256 && f[5] == len % 256;
      assert f[6..|f| - 2] == [node, cmd] + data;
    }
  }

  /** Where the fields of the two frames lie. */
  lemma FrameParts(node: byte, cmd: byte, data: seq<byte>)
    ensures var f := Frame(node, cmd, data); f[2] == node && f[3] == cmd && f[4..|f| - 2] == data
  {
  }

  lemma ExtendedFrameParts(node: byte, cmd: byte, data: seq<byte>)
    requires |data| <= 1014
    ensures var f := ExtendedFrame(node, cmd, data); |f| >= 10 && f[6] == node && f[7] == cmd && f[8..|f| - 2] == data
  {
  }

  /** The fields of a valid frame determine it: what is checked is what was built. */
  lemma ValidFrameIsBuilt(f: seq<byte>)
    requires ValidFrame(f)
    ensures f == Frame(f[2], f[3], f[4..|f| - 2])
  {
    var body := f[2..|f| - 2];
    assert body == [f[2], f[3]] + f[4..|f| - 2];
    assert f == [START, f[1]] + body + f[|f| - 2..];
  }

  /** Damage to any one byte of a valid frame, whichever it is, is noticed. */
  lemma OneDamagedByteIsDetected(f: seq<byte>, g: seq<byte>, k: nat)
    requires ValidFrame(f) && DiffersOnlyAt(f, g, k)
    ensures !ValidFrame(g)
  {
    if k >= 2 {
      DamagedBody(f, g, k, 2);
    }
  }

  lemma OneDamagedByteIsDetectedExtended(f: seq<byte>, g: seq<byte>, k: nat)
    requires ValidExtendedFrame(f) && DiffersOnlyAt(f, g, k)
    ensures !ValidExtendedFrame(g)
  {
    if k >= 6 {
      DamagedBody(f, g, k, 6);
    } else if k < 4 {
      assert g[..4][k] != f[..4][k];
    }
  }

  /** A trailer cannot fit both f and a copy damaged in one byte of its body or trailer. */
  lemma DamagedBody(f: seq<byte>, g: seq<byte>, k: nat, header: nat)
    requires DiffersOnlyAt(f, g, k) && header + 2 <= |f|
    requires k >= header
    requires f[|f| - 2..] == XorSum(f[header..|f| - 2])
    ensures g[|f| - 2..] != XorSum(g[header..|f| - 2])
  {
    var n := |f| - 2;
    assert forall h: seq<byte> :: |h| == |f| && h[n..] == XorSum(h[header..n]) ==>
      h[n] == XorFold(0xFF, h[header..n]) && h[n + 1] == (SumOf(h[header..n]) + h[n]) % 256;
    if k < n {
      XorFoldDetects(0xFF, f[header..n], g[header..n], k - header);
    } else {
      assert f[header..n] == g[header..n];
    }
  }
}
