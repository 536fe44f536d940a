/**
  The CADDX frame as the protocol defines it: start marker, raw length byte,
  byte-stuffed payload, Fletcher checksum big-endian.  `Frame` is the
  intended encoding of a payload and `Deframe` its inverse; the in-place
  encoder of caddx.c is compared against `Frame` in module `Caddx`.
*/
module Framing {

  import opened Bytes
  import opened Fletcher
  import opened Layout

  /** The escape lead byte, `CADDX_START - 1`. */
  const ESC_LEAD: byte := 0x7d

  /** A payload byte that must be stuffed: the start marker or the escape lead byte. */
  predicate Escapable(b: byte) {
    b == START || b == ESC_LEAD
  }

  /** How many payload bytes need stuffing: the `escs` counter of the encoder. */
  function CountEscapable(m: seq<byte>): nat {
    if m == [] then 0 else CountEscapable(m[..|m| - 1]) + (if Escapable(m[|m| - 1]) then 1 else 0)
  }

  /** The count of a concatenation is the sum of the counts. */
  lemma {:induction false} CountConcat(a: seq<byte>, b: seq<byte>)
    ensures CountEscapable(a + b) == CountEscapable(a) + CountEscapable(b)
  {
    if b != [] {
      CountConcat(a, b[..|b| - 1]);
      assert (a + b)[..|a + b| - 1] == a + b[..|b| - 1];
    } else {
      assert a + b == a;
    }
  }

  /** No payload byte needs stuffing exactly when the count is zero. */
  lemma {:induction false} CountZero(m: seq<byte>)
    ensures CountEscapable(m) == 0 <==> forall k :: 0 <= k < |m| ==> !Escapable(m[k])
  {
    if m != [] {
      CountZero(m[..|m| - 1]);
      assert forall k :: 0 <= k < |m| - 1 ==> m[k] == m[..|m| - 1][k];
    }
  }

  /** The wire form of one payload byte. */
  function EscapeByte(b: byte): (w: seq<byte>)
    ensures |w| == (if Escapable(b) then 2 else 1)
  {
    if Escapable(b) then [ESC_LEAD, XorStartEsc(b)] else [b]
  }

  /** Byte stuffing: each escapable byte becomes the lead byte followed by the byte XORed with `START_ESC`. */
  function Escape(m: seq<byte>): seq<byte> {
    if m == [] then [] else EscapeByte(m[0]) + Escape(m[1..])
  }

  /** Undoing the byte stuffing: a lead byte and its successor give back one byte. */
  function Unescape(w: seq<byte>): seq<byte> {
    if w == [] then []
    else if w[0] == ESC_LEAD && |w| >= 2 then [XorStartEsc(w[1])] + Unescape(w[2..])
    else [w[0]] + Unescape(w[1..])
  }

  /** Stuffing adds exactly one byte per escapable payload byte. */
  lemma {:induction false} EscapeLength(m: seq<byte>)
    ensures |Escape(m)| == |m| + CountEscapable(m)
  {
    if m != [] {
      EscapeLength(m[1..]);
      CountConcat([m[0]], m[1..]);
      assert [m[0]] + m[1..] == m;
      assert [m[0]][..0] == [];
    }
  }

  /** Stuffing works byte by byte, so it distributes over concatenation. */
  lemma {:induction false} EscapeConcat(a: seq<byte>, b: seq<byte>)
    ensures Escape(a + b) == Escape(a) + Escape(b)
  {
    if a != [] {
      EscapeConcat(a[1..], b);
      assert (a + b)[1..] == a[1..] + b;
    } else {
      assert a + b == b;
    }
  }

  /** `0x7e` goes on the wire as `7d 5e` and `0x7d` as `7d 5d`. */
  lemma EscapedPairs()
    ensures Escape([0x7e]) == [0x7d, 0x5e]
    ensures Escape([0x7d]) == [0x7d, 0x5d]
  {
    assert [0x7e as byte][1..] == [];
    assert [0x7d as byte][1..] == [];
  }

  /** A payload with nothing to stuff goes on the wire unchanged. */
  lemma {:induction false} EscapeVerbatim(m: seq<byte>)
    requires CountEscapable(m) == 0
    ensures Escape(m) == m
  {
    CountZero(m);
    if m != [] {
      CountZero(m[1..]);
      assert forall k :: 0 <= k < |m| - 1 ==> m[1..][k] == m[k + 1];
      EscapeVerbatim(m[1..]);
      assert [m[0]] + m[1..] == m;
    }
  }

  /** The start marker never appears inside a stuffed payload, which is what makes resynchronisation safe. */
  lemma {:induction false} EscapeHidesStart(m: seq<byte>)
    ensures forall k :: 0 <= k < |Escape(m)| ==> Escape(m)[k] != START
  {
    if m != [] {
      EscapeHidesStart(m[1..]);
      var head := EscapeByte(m[0]);
      assert Escape(m) == head + Escape(m[1..]);
      assert forall k :: |head| <= k < |Escape(m)| ==> Escape(m)[k] == Escape(m[1..])[k - |head|];
    }
  }

  /** Unstuffing inverts stuffing. */
  lemma {:induction false} UnescapeEscape(m: seq<byte>)
    ensures Unescape(Escape(m)) == m
  {
    if m != [] {
      UnescapeEscape(m[1..]);
      var w := Escape(m);
      var rest := Escape(m[1..]);
      assert w == EscapeByte(m[0]) + rest;
      if Escapable(m[0]) {
        assert w[2..] == rest;
        XorStartEscTwice(m[0]);
      } else {
        assert w[1..] == rest;
      }
      assert [m[0]] + m[1..] == m;
    }
  }

  /** The raw length byte: `p[1] = len` stores the payload length truncated to eight bits. */
  function LengthByte(n: nat): (b: byte)
    ensures n < 256 ==> b == n
  {
    n % 256
  }

  /** The 16-bit checksum a frame carries: Fletcher over the length byte followed by the unstuffed payload. */
  function FrameChecksum(msg: seq<byte>): (c: nat)
    ensures c / 256 < 255 && c % 256 < 255
  {
    ChecksumBytes([LengthByte(|msg|)] + msg);
    Checksum([LengthByte(|msg|)] + msg)
  }

  /** The intended wire form of a payload. */
  function Frame(msg: seq<byte>): seq<byte> {
    var c := FrameChecksum(msg);
    [START, LengthByte(|msg|)] + Escape(msg) + [c / 256, c % 256]
  }

  /** Reading a frame back: start marker, stuffed body, then length byte and checksum must agree with the body. */
  function Deframe(w: seq<byte>): (r: Option<seq<byte>>)
    ensures r.Some? ==> |w| >= 4 && w[0] == START && w[1] == LengthByte(|r.value|)
  {
    if |w| < 4 || w[0] != START then None
    else
      var body := Unescape(w[2..|w| - 2]);
      var c := FrameChecksum(body);
      if w[1] == LengthByte(|body|) && w[|w| - 2] == c / 256 && w[|w| - 1] == c % 256 then Some(body) else None
  }

  /** Where everything sits in a frame, and how long it is: `2 + len + escs + 2` bytes. */
  lemma FrameLayout(msg: seq<byte>)
    ensures |Frame(msg)| == 4 + |msg| + CountEscapable(msg)
    ensures Frame(msg)[0] == START && Frame(msg)[1] == LengthByte(|msg|)
    ensures Frame(msg)[2..|Frame(msg)| - 2] == Escape(msg)
    ensures Frame(msg)[|Frame(msg)| - 2] == FrameChecksum(msg) / 256
    ensures Frame(msg)[|Frame(msg)| - 1] == FrameChecksum(msg) % 256
  {
    EscapeLength(msg);
  }

  /** Every payload survives framing and deframing. */
  lemma DeframeFrame(msg: seq<byte>)
    ensures Deframe(Frame(msg)) == Some(msg)
  {
    FrameLayout(msg);
    UnescapeEscape(msg);
  }

  /** Distinct payloads have distinct frames. */
  lemma FrameInjective(a: seq<byte>, b: seq<byte>)
    requires Frame(a) == Frame(b)
    ensures a == b
  {
    DeframeFrame(a);
    DeframeFrame(b);
  }

  /** The interface-configuration request `{0x21}` is framed as `7E 01 21 22 23`. */
  lemma FrameOfIfaceCfgReq()
    ensures Frame([IFACE_CFG_REQ]) == [0x7e, 0x01, 0x21, 0x22, 0x23]
  {
    var data: seq<byte> := [0x01, 0x21];
    assert data[..1] == [0x01];
    assert Sum(data) == 0x22;
    assert PrefixSumTotal(data) == 0x23;
    assert [LengthByte(1)] + [IFACE_CFG_REQ] == data;
    assert [IFACE_CFG_REQ][1..] == [];
    assert Escape([IFACE_CFG_REQ]) == [0x21];
    assert FrameChecksum([IFACE_CFG_REQ]) == 0x2223;
  }

  datatype Option<T> = None | Some(value: T)
}
