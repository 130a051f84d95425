/**
 * The encoding half of the serial framing protocol: byte stuffing, the XOR
 * checksum and the framed layout START, stuffed payload, stuffed checksum, END.
 */
module Codec {
  import opened Results

  type byte = bv8

  const START: byte := 0x10
  const END: byte := 0xFF
  const ESC: byte := 0x1B

  /** The three reserved values that must be escaped inside a frame: 0x10, 0xFF and 0x1B. */
  predicate IsMagic(b: byte)
  {
    b == START || b == END || b == ESC
  }

  /** XOR of all bytes of `p`, accumulated from the first to the last. */
  function Checksum(p: seq<byte>): byte {
    if p == [] then 0 else Checksum(p[..|p| - 1]) ^ p[|p| - 1]
  }

  /** Number of bytes of `p` that are magic. */
  function MagicCount(p: seq<byte>): (n: nat)
    ensures n <= |p|
  {
    if p == [] then 0 else MagicCount(p[..|p| - 1]) + (if IsMagic(p[|p| - 1]) then 1 else 0)
  }

  /** One byte as it goes on the wire: preceded by ESC exactly when it is magic. */
  function Stuff(b: byte): (r: seq<byte>)
    ensures |r| == 2 <==> IsMagic(b)
    ensures 1 <= |r| <= 2 && r[|r| - 1] == b
    ensures |r| == 2 ==> r[0] == ESC
  {
    if IsMagic(b) then [ESC, b] else [b]
  }

  /** Every byte of `p` stuffed on its own, in order. */
  function StuffAll(p: seq<byte>): (r: seq<byte>)
    ensures |r| == |p| + MagicCount(p)
  {
    if p == [] then [] else StuffAll(p[..|p| - 1]) + Stuff(p[|p| - 1])
  }

  /** The complete wire image of payload `p`. */
  function Frame(p: seq<byte>): (r: seq<byte>)
    ensures |r| == |p| + 3 + MagicCount(p) + (if IsMagic(Checksum(p)) then 1 else 0)
    ensures r[0] == START && r[|r| - 1] == END
  {
    [START] + StuffAll(p) + Stuff(Checksum(p)) + [END]
  }

  /** The size compute_payload_size reports: it counts magic payload bytes only. */
  function PayloadSize(p: seq<byte>): (n: nat)
    // three framing bytes, plus one escape for at most every payload byte
    ensures |p| + 3 <= n <= 2 * |p| + 3
  {
    |p| + 3 + MagicCount(p)
  }

  /** XOR does not depend on how the payload is split. */
  lemma {:induction false} ChecksumAppend(a: seq<byte>, b: seq<byte>)
    ensures Checksum(a + b) == Checksum(a) ^ Checksum(b)
  {
    if b != [] {
      assert (a + b)[..|a + b| - 1] == a + b[..|b| - 1];
      ChecksumAppend(a, b[..|b| - 1]);
    } else {
      assert a + b == a;
    }
  }

  /** Changing any single payload byte changes the checksum. */
  lemma ChecksumDetectsSingleByteChange(p: seq<byte>, i: nat, x: byte)
    requires i < |p| && x != p[i]
    ensures Checksum(p[i := x]) != Checksum(p)
  {
    var q := p[i := x];
    assert p == p[..i] + [p[i]] + p[i + 1..];
    assert q == p[..i] + [x] + p[i + 1..];
    ChecksumAppend(p[..i] + [p[i]], p[i + 1..]);
    ChecksumAppend(p[..i], [p[i]]);
    ChecksumAppend(p[..i] + [x], p[i + 1..]);
    ChecksumAppend(p[..i], [x]);
    assert [p[i]][..0] == [] && [x][..0] == [];
  }

  lemma {:induction false} MagicCountPrefix(p: seq<byte>, i: nat)
    requires i <= |p|
    ensures MagicCount(p[..i]) <= MagicCount(p)
    decreases |p| - i
  {
    if i < |p| {
      assert p[..|p| - 1][..i] == p[..i];
      MagicCountPrefix(p[..|p| - 1], i);
    } else {
      assert p[..i] == p;
    }
  }

  lemma StuffAllPrefix(p: seq<byte>, i: nat)
    requires i < |p|
    ensures StuffAll(p[..i + 1]) == StuffAll(p[..i]) + Stuff(p[i])
    ensures |StuffAll(p[..i + 1])| <= |StuffAll(p)|
  {
    assert p[..i + 1][..i] == p[..i];
    MagicCountPrefix(p, i + 1);
  }

  /** compute_payload_size as written: the size misses the stuffing of the checksum. */
  lemma PayloadSizeUndercount(p: seq<byte>)
    ensures |Frame(p)| == PayloadSize(p) + (if IsMagic(Checksum(p)) then 1 else 0)
  {
  }

  /** The payload [0x10] needs 6 wire bytes, but compute_payload_size reports 5. */
  lemma PayloadSizeTooSmallForStartPayload()
    ensures PayloadSize([START]) == 5
    ensures Frame([START]) == [START, ESC, START, ESC, START, END]
  {
    assert [START][..0] == [];
    assert Checksum([START]) == START;
    assert StuffAll([START]) == [ESC, START];
  }

  /** The total of the XOR checksum loop of compute_checksum. */
  method ComputeChecksum(buf: array<byte>, size: nat) returns (cs: byte)
    requires size <= buf.Length
    ensures cs == Checksum(buf[..size])
  {
    cs := 0;
    var i := 0;
    while i < size
      invariant i <= size
      invariant cs == Checksum(buf[..i])
    {
      assert buf[..i + 1][..i] == buf[..i];
      cs := cs ^ buf[i];
      i := i + 1;
    }
  }

  /** compute_payload_size, as written. */
  method ComputePayloadSize(buf: array<byte>, size: nat) returns (n: nat)
    requires size <= buf.Length
    ensures n == PayloadSize(buf[..size])
    ensures size + 3 <= n <= 2 * size + 3
  {
    n := size + 3;
    var i := 0;
    while i < size
      invariant i <= size
      invariant n == i + 3 + MagicCount(buf[..i]) + (size - i)
    {
      assert buf[..i + 1][..i] == buf[..i];
      if IsMagic(buf[i]) {
        n := n + 1;
      }
      i := i + 1;
    }
  }

  /** The corrected size computation: also counts the ESC before a magic checksum. */
  method ComputeFrameSize(buf: array<byte>, size: nat) returns (n: nat)
    requires size <= buf.Length
    ensures n == |Frame(buf[..size])|
  {
    n := ComputePayloadSize(buf, size);
    var cs := ComputeChecksum(buf, size);
    if IsMagic(cs) {
      n := n + 1;
    }
  }

  /**
   * smp_serial_protocol_write_byte: stuff `b` into `dest` at `at`. Only the
   * bytes it counts change.
   */
  method WriteByte(dest: array<byte>, at: nat, b: byte) returns (n: nat)
    requires at + |Stuff(b)| <= dest.Length
    modifies dest
    ensures n == |Stuff(b)|
    ensures dest[..] == old(dest[..at]) + Stuff(b) + old(dest[at + n..])
  {
    n := 0;
    if IsMagic(b) {
      dest[at + n] := ESC;
      n := n + 1;
    }
    dest[at + n] := b;
    n := n + 1;
  }

  /**
   * A buffer laid out as `h + w + orig[at..]`, with `s` written at `at`, is laid
   * out as `h + (w + s) + orig[at + |s|..]`.
   */
  lemma Splice(pre: seq<byte>, post: seq<byte>, h: seq<byte>, w: seq<byte>, s: seq<byte>, orig: seq<byte>, at: nat)
    requires at == |h| + |w| && at + |s| <= |orig| && |pre| == |orig|
    requires pre == h + w + orig[at..]
    requires post == pre[..at] + s + pre[at + |s|..]
    ensures post == h + (w + s) + orig[at + |s|..]
  {
    assert pre[..at] == h + w;
    assert pre[at + |s|..] == orig[at + |s|..];
  }

  lemma UpdateIsSplice(s: seq<byte>, i: nat, x: byte)
    requires i < |s|
    ensures s[i := x] == s[..i] + [x] + s[i + 1..]
  {
  }

  lemma FrameGrouped(p: seq<byte>)
    ensures Frame(p) == [START] + ((StuffAll(p) + Stuff(Checksum(p))) + [END])
  {
  }

  /** START, then the stuffed payload `body`, written over `orig`. */
  lemma HeadWritten(body: seq<byte>, orig: seq<byte>, s1: seq<byte>, s2: seq<byte>)
    requires 1 + |body| <= |orig|
    requires s1 == orig[0 := START]
    requires s2 == s1[..1] + body + s1[1 + |body|..]
    ensures s2 == [START] + body + orig[1 + |body|..]
  {
    assert s1[..1] == [START];
    assert s1[1 + |body|..] == orig[1 + |body|..];
  }

  /** Then the stuffed checksum and END. */
  lemma TailWritten(head: seq<byte>, tail: seq<byte>, orig: seq<byte>, s2: seq<byte>, s3: seq<byte>, s4: seq<byte>)
    requires 0 < |head| && |head| + |tail| < |orig|
    requires s2 == head + orig[|head|..]
    requires s3 == s2[..|head|] + tail + s2[|head| + |tail|..]
    requires s4 == s3[|head| + |tail| := END]
    ensures s4 == head + tail + [END] + orig[|head| + |tail| + 1..]
  {
    var at := |head| + |tail|;
    assert s2 == head[..1] + head[1..] + orig[|head|..];
    Splice(s2, s3, head[..1], head[1..], tail, orig, |head|);
    UpdateIsSplice(s3, at, END);
    Splice(s3, s4, head[..1], head[1..] + tail, [END], orig, at);
  }

  /** The four writes of WriteFrame, one after another, lay out the frame over `orig`. */
  lemma FrameWritten(p: seq<byte>, orig: seq<byte>, s1: seq<byte>, s2: seq<byte>, s3: seq<byte>, s4: seq<byte>)
    requires |Frame(p)| <= |orig|
    requires s1 == orig[0 := START]
    requires s2 == s1[..1] + StuffAll(p) + s1[1 + |StuffAll(p)|..]
    requires s3 == s2[..1 + |StuffAll(p)|] + Stuff(Checksum(p)) + s2[1 + |StuffAll(p)| + |Stuff(Checksum(p))|..]
    requires s4 == s3[1 + |StuffAll(p)| + |Stuff(Checksum(p))| := END]
    ensures s4 == Frame(p) + orig[|Frame(p)|..]
    ensures s4[..|Frame(p)|] == Frame(p)
  {
    var head := [START] + StuffAll(p);
    var tail := Stuff(Checksum(p));
    FrameGrouped(p);
    assert |Frame(p)| == |head| + |tail| + 1;
    HeadWritten(StuffAll(p), orig, s1, s2);
    TailWritten(head, tail, orig, s2, s3, s4);
    assert head + tail + [END] == Frame(p);
  }

  /**
   * The payload loop of smp_serial_protocol_encode: after the START slot, each
   * payload byte stuffed; nothing from the returned offset on changes.
   */
  method WritePayload(inbuf: array<byte>, out: array<byte>) returns (offset: nat)
    requires inbuf != out && 1 + |StuffAll(inbuf[..])| <= out.Length
    modifies out
    ensures offset == 1 + |StuffAll(inbuf[..])|
    ensures out[..] == old(out[..1]) + StuffAll(inbuf[..]) + old(out[offset..])
  {
    ghost var p := inbuf[..];
    ghost var orig := out[..];
    ghost var w: seq<byte> := [];
    offset := 1;
    var i := 0;
    while i < inbuf.Length
      invariant i <= inbuf.Length && inbuf[..] == p
      invariant w == StuffAll(p[..i]) && offset == 1 + |w| <= out.Length
      invariant out[..] == orig[..1] + w + orig[offset..]
    {
      StuffAllPrefix(p, i);
      ghost var pre := out[..];
      var n := WriteByte(out, offset, inbuf[i]);
      Splice(pre, out[..], orig[..1], w, Stuff(p[i]), orig, offset);
      w := w + Stuff(p[i]);
      offset := offset + n;
      i := i + 1;
    }
    assert p[..i] == p;
  }

  /**
   * The writing part of smp_serial_protocol_encode, into a buffer known to be
   * large enough; nothing after the frame changes.
   */
  method WriteFrame(inbuf: array<byte>, out: array<byte>) returns (offset: nat)
    requires inbuf != out && |Frame(inbuf[..])| <= out.Length
    modifies out
    ensures offset == |Frame(inbuf[..])| && out[..offset] == Frame(inbuf[..])
    ensures out[..] == Frame(inbuf[..]) + old(out[offset..])
  {
    ghost var p := inbuf[..];
    ghost var orig := out[..];
    out[0] := START;
    ghost var s1 := out[..];
    offset := WritePayload(inbuf, out);
    assert inbuf[..inbuf.Length] == p;
    var cs := ComputeChecksum(inbuf, inbuf.Length);
    ghost var s2 := out[..];
    var n := WriteByte(out, offset, cs);
    ghost var s3 := out[..];
    out[offset + n] := END;
    FrameWritten(p, orig, s1, s2, s3, out[..]);
    assert inbuf[..] == p;
    offset := offset + n + 1;
  }

  /**
   * smp_serial_protocol_encode with the corrected size. With `outbuf == null` a
   * buffer of exactly the frame size is allocated; otherwise `outbuf` (whose
   * length plays the part of `outsize`) must hold the whole frame.
   */
  method Encode(inbuf: array<byte>, outbuf: array?<byte>) returns (r: Result<nat>, txbuf: array?<byte>)
    requires inbuf != outbuf
    modifies outbuf
    ensures outbuf != null && outbuf.Length == 0 ==> r == Failure(InvalidParam)
    ensures outbuf != null && 0 < outbuf.Length < |Frame(inbuf[..])| ==> r == Failure(Overflow)
    ensures r.Success? <==> outbuf == null || |Frame(inbuf[..])| <= outbuf.Length
    ensures r.Failure? ==> txbuf == outbuf && (outbuf != null ==> unchanged(outbuf))
    ensures r.Success? ==> txbuf != null && r.value == |Frame(inbuf[..])| <= txbuf.Length
    ensures r.Success? ==> txbuf[..r.value] == Frame(inbuf[..])
    ensures r.Success? && outbuf != null ==> outbuf[..] == Frame(inbuf[..]) + old(outbuf[r.value..])
    ensures r.Success? && outbuf == null ==> fresh(txbuf) && txbuf.Length == r.value
    ensures outbuf != null ==> txbuf == outbuf
  {
    txbuf := outbuf;
    if outbuf != null && outbuf.Length == 0 {
      return Failure(InvalidParam), txbuf;
    }
    var size := ComputeFrameSize(inbuf, inbuf.Length);
    assert inbuf[..inbuf.Length] == inbuf[..];
    var out: array<byte>;
    if outbuf == null {
      out := new byte[size];
    } else {
      if outbuf.Length < size {
        return Failure(Overflow), txbuf;
      }
      out := outbuf;
    }
    var written := WriteFrame(inbuf, out);
    txbuf := out;
    r := Success(written);
  }
}
