/**
  The serial link of caddx.c: `caddx_tx`, which builds a frame in a heap
  buffer and stuffs it in place, and `caddx_rx`, which discards input until
  the start marker.

  Both report failure through the global `errno`, which neither clears, so
  `errno` is explicit state here: passed in, and returned in the outcome.
  The contents of the fresh `malloc` block are a parameter (`garbage k` is
  byte `k` of the allocation before anything is stored), the value `write`
  returns is a parameter, and the results of successive `read` calls are a
  script.
*/
module Caddx {

  import opened Bytes
  import opened Fletcher
  import opened Layout
  import opened Framing

  // errno values (Linux).
  const EINTR: nat := 4
  const EIO: nat := 5
  const EAGAIN: nat := 11
  const ENOMEM: nat := 12

  // ----- caddx_tx -----

  /** How `caddx_tx` ends: it returns, having handed `wire` to `write`, or it stores or loads outside its allocation. */
  datatype TxOutcome =
    | Done(ret: int, errno: nat, wire: seq<byte>)
    | Overrun(at: nat)

  /** How the stuffing loop ends: with the buffer, or touching index `at` past its end. */
  datatype LoopEnd = Fits(buf: seq<byte>) | OutOfBounds(at: nat)

  /**
    The stuffing loop of `caddx_tx` from iteration `i` with offset `j`: it
    inspects `p[2 + i + j]`; a start marker is decremented to the lead byte
    and the next cell overwritten with `0x5e`; a lead byte keeps its value and
    the next cell is overwritten with `0x5d`; each escape bumps `j`.
  */
  function EscapeLoop(buf: seq<byte>, i: nat, j: nat, len: nat): (r: LoopEnd)
    ensures r.Fits? ==> |r.buf| == |buf|
    ensures r.Fits? && |buf| >= 2 ==> r.buf[0] == buf[0] && r.buf[1] == buf[1]
    ensures r.OutOfBounds? ==> r.at >= |buf|
    decreases len - i
  {
    if i >= len then Fits(buf)
    else
      var k := 2 + i + j;
      if k >= |buf| then OutOfBounds(k)
      else if buf[k] == START then
        if k + 1 >= |buf| then OutOfBounds(k + 1)
        else EscapeLoop(buf[k := ESC_LEAD][k + 1 := XorStartEsc(START)], i + 1, j + 1, len)
      else if buf[k] == ESC_LEAD then
        if k + 1 >= |buf| then OutOfBounds(k + 1)
        else EscapeLoop(buf[k + 1 := XorStartEsc(ESC_LEAD)], i + 1, j + 1, len)
      else EscapeLoop(buf, i + 1, j, len)
  }

  /**
    The allocation of `4 + len + escs` bytes after `p[0] = CADDX_START`,
    `p[1] = len` and the `memcpy` of the payload; the tail is still garbage.
  */
  function Allocation(msg: seq<byte>, garbage: nat -> byte): (buf: seq<byte>)
    ensures |buf| == 4 + |msg| + CountEscapable(msg)
  {
    var len := |msg|;
    [START, LengthByte(len)] + msg + seq(CountEscapable(msg) + 2, k requires 0 <= k => garbage(2 + len + k))
  }

  /** After `write(fd, p, len)` accepted `accepted` bytes: a short write sets `EIO`, and any nonzero `errno` means -1. */
  function Sent(wire: seq<byte>, errno: nat, accepted: int): TxOutcome {
    var e := if accepted != |wire| then EIO else errno;
    Done(if e != 0 then -1 else 0, e, wire)
  }

  /**
    `caddx_tx` as written: allocate, fill, checksum the unstuffed length and
    payload, stuff in place when `escs != 0`, store the checksum big-endian in
    the last two bytes, write the whole buffer.
  */
  function TxAsWritten(errno: nat, msg: seq<byte>, mallocFails: bool, garbage: nat -> byte, accepted: int): TxOutcome {
    if mallocFails then Done(-1, ENOMEM, [])
    else
      var len := |msg|;
      var escs := CountEscapable(msg);
      var buf := Allocation(msg, garbage);
      var looped := if escs == 0 then Fits(buf) else EscapeLoop(buf, 0, 0, len);
      match looped
      case OutOfBounds(at) => Overrun(at)
      case Fits(b) =>
        var c := FrameChecksum(msg);
        Sent(b[2 + len + escs := c / 256][3 + len + escs := c % 256], errno, accepted)
  }

  /** The first loop of `caddx_tx`: `escs` counts the payload bytes equal to `0x7e` or `0x7d`. */
  method CountEscapes(msg: seq<byte>) returns (escs: nat)
    ensures escs == CountEscapable(msg)
  {
    escs := 0;
    for i := 0 to |msg|
      invariant escs == CountEscapable(msg[..i])
    {
      assert msg[..i + 1][..i] == msg[..i];
      if msg[i] == START || msg[i] == ESC_LEAD {
        escs := escs + 1;
      }
    }
    assert msg[..|msg|] == msg;
  }

  /** `malloc(2 + len + escs + 2)`, then `p[0] = CADDX_START`, `p[1] = len` and the `memcpy` of the payload. */
  method Allocate(msg: seq<byte>, escs: nat, garbage: nat -> byte) returns (p: array<byte>)
    requires escs == CountEscapable(msg)
    ensures fresh(p) && p[..] == Allocation(msg, garbage)
  {
    var len := |msg|;
    p := new byte[2 + len + escs + 2](k requires 0 <= k => garbage(k));
    p[0] := START;
    p[1] := LengthByte(len);
    forall k | 0 <= k < len {
      p[2 + k] := msg[k];
    }
    ghost var buf := Allocation(msg, garbage);
    forall k | 0 <= k < p.Length
      ensures p[k] == buf[k]
    {
      if 2 <= k < 2 + len {
        assert buf[k] == msg[k - 2];
      }
    }
  }

  /** The `if (escs)` loop of `caddx_tx`, in place on the allocation; `Some(k)` reports a first access at index `k` past its end. */
  method StuffInPlace(p: array<byte>, len: nat) returns (overrun: Option<nat>)
    modifies p
    ensures EscapeLoop(old(p[..]), 0, 0, len) == if overrun.Some? then OutOfBounds(overrun.value) else Fits(p[..])
  {
    ghost var buf := p[..];
    var i, j := 0, 0;
    while i < len
      invariant 0 <= i <= len
      invariant EscapeLoop(p[..], i, j, len) == EscapeLoop(buf, 0, 0, len)
      decreases len - i
    {
      ghost var before: seq<byte> := p[..];
      ghost var k: nat := 2 + i + j;
      if 2 + i + j >= p.Length {
        return Some(2 + i + j);
      }
      if p[2 + i + j] == START {
        if 2 + i + j + 1 >= p.Length {
          return Some(2 + i + j + 1);
        }
        p[2 + i + j] := p[2 + i + j] - 1;
        j := j + 1;
        p[2 + i + j] := XorStartEsc(START);
        assert p[..] == before[k := ESC_LEAD][k + 1 := XorStartEsc(START)];
      } else if p[2 + i + j] == START - 1 {
        j := j + 1;
        if 2 + i + j >= p.Length {
          return Some(2 + i + j);
        }
        p[2 + i + j] := XorStartEsc(START - 1);
        assert p[..] == before[k + 1 := XorStartEsc(ESC_LEAD)];
      }
      i := i + 1;
    }
    return None;
  }

  /** `caddx_tx`: count the escapable bytes, build the frame in a fresh block, write it. */
  method Tx(errno: nat, msg: seq<byte>, mallocFails: bool, garbage: nat -> byte, accepted: int) returns (out: TxOutcome)
    ensures out == TxAsWritten(errno, msg, mallocFails, garbage, accepted)
  {
    var len := |msg|;
    var escs := CountEscapes(msg);
    if mallocFails {
      return Done(-1, ENOMEM, []);
    }
    var p := Allocate(msg, escs, garbage);
    assert p[1..2 + len] == [LengthByte(len)] + msg;
    var cksum := FletcherCksum(p[1..2 + len]);
    if escs != 0 {
      var overrun := StuffInPlace(p, len);
      if overrun.Some? {
        return Overrun(overrun.value);
      }
    }
    p[2 + len + escs] := cksum / 256;
    p[2 + len + escs + 1] := cksum % 256;
    out := Sent(p[..], errno, accepted);
  }

  /**
    Whatever the loop does to the payload, a frame that was sent starts with
    the marker and the raw length byte, is `2 + len + escs + 2` bytes long and
    ends with the checksum of the unstuffed length and payload, high byte
    first; the call returns 0 exactly when `errno` ends up 0, and a short write
    sets `EIO`.
  */
  lemma {:induction false} TxFrameShape(errno: nat, msg: seq<byte>, garbage: nat -> byte, accepted: int)
    ensures var out := TxAsWritten(errno, msg, false, garbage, accepted);
      out.Done? ==>
        && |out.wire| == 4 + |msg| + CountEscapable(msg)
        && out.wire[0] == START
        && out.wire[1] == LengthByte(|msg|)
        && out.wire[|out.wire| - 2] == FrameChecksum(msg) / 256
        && out.wire[|out.wire| - 1] == FrameChecksum(msg) % 256
        && out.errno == (if accepted != |out.wire| then EIO else errno)
        && (out.ret == 0 <==> out.errno == 0)
  {
  }

  /** A failed `malloc` returns -1 with `ENOMEM` and writes nothing. */
  lemma TxOutOfMemory(errno: nat, msg: seq<byte>, garbage: nat -> byte, accepted: int)
    ensures TxAsWritten(errno, msg, true, garbage, accepted) == Done(-1, ENOMEM, [])
  {
  }

  /** Iterations over bytes that need no stuffing change nothing. */
  lemma {:induction false} SkipPlain(buf: seq<byte>, i: nat, n: nat, len: nat)
    requires i <= n <= len && 2 + n <= |buf|
    requires forall k :: 2 + i <= k < 2 + n ==> !Escapable(buf[k])
    ensures EscapeLoop(buf, i, 0, len) == EscapeLoop(buf, n, 0, len)
    decreases n - i
  {
    if i < n {
      SkipPlain(buf, i + 1, n, len);
    }
  }

  /** With no byte to stuff, the loop is skipped and the wire is exactly the intended frame. */
  lemma {:induction false} TxNoEscapes(errno: nat, msg: seq<byte>, garbage: nat -> byte, accepted: int)
    requires CountEscapable(msg) == 0
    ensures TxAsWritten(errno, msg, false, garbage, accepted) == Sent(Frame(msg), errno, accepted)
  {
    EscapeVerbatim(msg);
    var len := |msg|;
    var buf := Allocation(msg, garbage);
    var c := FrameChecksum(msg);
    var wire := buf[2 + len := c / 256][3 + len := c % 256];
    assert wire == Frame(msg) by {
      assert forall k :: 2 <= k < 2 + len ==> wire[k] == msg[k - 2];
    }
  }

  /** The loop over a payload whose only escapable byte is its last one stuffs that byte into the first garbage cell. */
  lemma {:induction false} LoopLastEscapable(pre: seq<byte>, b: byte, garbage: nat -> byte)
    requires CountEscapable(pre) == 0 && Escapable(b)
    ensures var len := |pre| + 1;
      var buf := Allocation(pre + [b], garbage);
      && CountEscapable(pre + [b]) == 1
      && EscapeLoop(buf, 0, 0, len) == Fits(buf[len + 1 := ESC_LEAD][len + 2 := XorStartEsc(b)])
  {
    var msg := pre + [b];
    var len := |msg|;
    assert msg[..len - 1] == pre;
    var buf := Allocation(msg, garbage);
    CountZero(pre);
    assert forall k :: 2 <= k < len + 1 ==> buf[k] == pre[k - 2];
    SkipPlain(buf, 0, len - 1, len);
    assert buf[len + 1] == b;
    if b == ESC_LEAD {
      assert buf[len + 1 := ESC_LEAD] == buf;
    }
  }

  /** A payload whose only escapable byte is its last one is stuffed correctly. */
  lemma {:induction false} TxLastEscapable(errno: nat, pre: seq<byte>, b: byte, garbage: nat -> byte, accepted: int)
    requires CountEscapable(pre) == 0 && Escapable(b)
    ensures TxAsWritten(errno, pre + [b], false, garbage, accepted) == Sent(Frame(pre + [b]), errno, accepted)
  {
    var msg := pre + [b];
    var len := |msg|;
    LoopLastEscapable(pre, b, garbage);
    var buf := Allocation(msg, garbage);
    var stuffed := buf[len + 1 := ESC_LEAD][len + 2 := XorStartEsc(b)];
    var c := FrameChecksum(msg);
    var wire := stuffed[3 + len := c / 256][4 + len := c % 256];
    EscapeVerbatim(pre);
    EscapeConcat(pre, [b]);
    assert Escape([b]) == [ESC_LEAD, XorStartEsc(b)] by {
      assert [b][1..] == [];
    }
    assert Frame(msg) == [START, LengthByte(len)] + pre + [ESC_LEAD, XorStartEsc(b), c / 256, c % 256];
    assert wire == Frame(msg) by {
      assert forall k :: 2 <= k < len + 1 ==> wire[k] == pre[k - 2];
    }
  }

  /** Counting is unchanged when a byte is replaced by one of the same kind. */
  lemma {:induction false} CountUpdate(m: seq<byte>, p: nat, c: byte)
    requires p < |m| && Escapable(m[p]) == Escapable(c)
    ensures CountEscapable(m[p := c]) == CountEscapable(m)
  {
    var m2 := m[p := c];
    assert m == m[..p] + [m[p]] + m[p + 1..];
    assert m2 == m[..p] + [c] + m[p + 1..];
    CountConcat(m[..p] + [m[p]], m[p + 1..]);
    CountConcat(m[..p] + [c], m[p + 1..]);
    CountConcat(m[..p], [m[p]]);
    CountConcat(m[..p], [c]);
    assert [m[p]][..0] == [] && [c][..0] == [];
  }

  /**
    The defect of the in-place loop: the payload is not shifted, so stuffing
    an escapable byte that is not last overwrites its successor.  The stuffed
    body therefore does not depend on that successor at all, and of two
    payloads that differ only there at least one goes out wrong.
  */
  lemma {:induction false} TxClobbersSuccessor(msg: seq<byte>, i: nat, c: byte, garbage: nat -> byte)
    requires i + 1 < |msg| && Escapable(msg[i]) && CountEscapable(msg[..i]) == 0
    requires !Escapable(msg[i + 1]) && !Escapable(c) && c != msg[i + 1]
    ensures var len := |msg|;
      EscapeLoop(Allocation(msg[i + 1 := c], garbage), 0, 0, len) == EscapeLoop(Allocation(msg, garbage), 0, 0, len)
    ensures Escape(msg[i + 1 := c]) != Escape(msg)
  {
    var len := |msg|;
    var msg2 := msg[i + 1 := c];
    CountUpdate(msg, i + 1, c);
    var buf := Allocation(msg, garbage);
    var buf2 := Allocation(msg2, garbage);
    assert buf2 == buf[2 + i + 1 := c];
    CountZero(msg[..i]);
    assert forall k :: 2 <= k < 2 + i ==> buf[k] == msg[..i][k - 2] && buf2[k] == msg[..i][k - 2];
    SkipPlain(buf, 0, i, len);
    SkipPlain(buf2, 0, i, len);
    var k := 2 + i;
    if buf[k] == START {
      assert buf2[k := ESC_LEAD][k + 1 := XorStartEsc(START)] == buf[k := ESC_LEAD][k + 1 := XorStartEsc(START)];
    } else {
      assert buf2[k + 1 := XorStartEsc(ESC_LEAD)] == buf[k + 1 := XorStartEsc(ESC_LEAD)];
    }
    UnescapeEscape(msg);
    UnescapeEscape(msg2);
    assert msg2[i + 1] != msg[i + 1];
  }

  /** A longer prefix holds at least as many escapable bytes. */
  lemma {:induction false} CountPrefixMono(msg: seq<byte>, a: nat, b: nat)
    requires a <= b <= |msg|
    ensures CountEscapable(msg[..a]) <= CountEscapable(msg[..b])
    decreases b - a
  {
    if a < b {
      CountPrefixMono(msg, a, b - 1);
      EscapePrefixStep(msg, b - 1);
    }
  }

  /** What the allocation holds at index `q >= 2` before the loop: the payload, then a constant fill `g`. */
  function Cell(msg: seq<byte>, g: byte, q: nat): byte
    requires 2 <= q
  {
    if q < 2 + |msg| then msg[q - 2] else g
  }

  /** The cells from `k` on are still as `Allocation` left them. */
  predicate Unread(msg: seq<byte>, g: byte, b: seq<byte>, k: nat) {
    2 <= k && forall q :: k <= q < |b| ==> b[q] == Cell(msg, g, q)
  }

  /**
    The cell the last iteration of the loop inspects, when the payload cells
    are read from `msg` and no escape is triggered by a cell past the payload.
  */
  function LastRead(msg: seq<byte>, i: nat, j: nat): nat
    requires i < |msg|
    decreases |msg| - i
  {
    var k := 2 + i + j;
    if i + 1 == |msg| then k
    else if k < 2 + |msg| && Escapable(msg[k - 2]) then LastRead(msg, i + 1, j + 1)
    else LastRead(msg, i + 1, j)
  }

  /** `n` capped at `len`. */
  function Upto(n: nat, len: nat): nat {
    if n < len then n else len
  }

  /** The buffer after the loop stuffs the escapable byte at `k`. */
  function Stuffed(b: seq<byte>, k: nat): seq<byte>
    requires k + 1 < |b|
  {
    if b[k] == START then b[k := ESC_LEAD][k + 1 := XorStartEsc(START)] else b[k + 1 := XorStartEsc(ESC_LEAD)]
  }

  /** The offset `j` never exceeds the escapable bytes among the cells read so far, so one more iteration keeps that bound. */
  lemma {:induction false} CountBoundStep(msg: seq<byte>, i: nat, j: nat)
    requires j <= CountEscapable(msg[..Upto(i + j, |msg|)])
    ensures j <= CountEscapable(msg)
    ensures i + j < |msg| && Escapable(msg[i + j]) ==> j + 1 <= CountEscapable(msg[..Upto(i + j + 2, |msg|)])
    ensures j <= CountEscapable(msg[..Upto(i + j + 1, |msg|)])
  {
    var len := |msg|;
    CountPrefixMono(msg, Upto(i + j, len), len);
    CountPrefixMono(msg, Upto(i + j, len), Upto(i + j + 1, len));
    assert msg[..len] == msg;
    if i + j < len {
      EscapePrefixStep(msg, i + j);
      CountPrefixMono(msg, i + j + 1, Upto(i + j + 2, len));
    }
  }

  /** One iteration of the loop over cells still as allocated with a fill that needs no stuffing. */
  lemma LoopStep(msg: seq<byte>, g: byte, b: seq<byte>, i: nat, j: nat)
    requires !Escapable(g)
    requires |b| == 4 + |msg| + CountEscapable(msg)
    requires i < |msg| && j <= CountEscapable(msg)
    requires Unread(msg, g, b, 2 + i + j)
    ensures var k := 2 + i + j;
      if k < 2 + |msg| && Escapable(msg[k - 2]) then
        && k + 1 < |b|
        && EscapeLoop(b, i, j, |msg|) == EscapeLoop(Stuffed(b, k), i + 1, j + 1, |msg|)
        && Unread(msg, g, Stuffed(b, k), k + 2)
      else
        && k < |b| && b[k] == Cell(msg, g, k)
        && EscapeLoop(b, i, j, |msg|) == EscapeLoop(b, i + 1, j, |msg|)
        && Unread(msg, g, b, k + 1)
  {
    var k := 2 + i + j;
    assert b[k] == Cell(msg, g, k);
  }

  /**
    After at least one escape, a run of the loop over the allocation with a
    constant fill `g` that needs no stuffing fits, and its last iteration
    inspects a fill cell below the checksum slot and leaves `g` there.
  */
  lemma {:induction false} LoopEndsOnFill(msg: seq<byte>, g: byte, b: seq<byte>, i: nat, j: nat)
    requires !Escapable(g)
    requires |b| == 4 + |msg| + CountEscapable(msg)
    requires 1 <= j && i < |msg|
    requires j <= CountEscapable(msg[..Upto(i + j, |msg|)])
    requires Unread(msg, g, b, 2 + i + j)
    ensures 2 + |msg| <= LastRead(msg, i, j) < 2 + |msg| + CountEscapable(msg)
    ensures EscapeLoop(b, i, j, |msg|).Fits?
    ensures EscapeLoop(b, i, j, |msg|).buf[LastRead(msg, i, j)] == g
    decreases |msg| - i
  {
    var k := 2 + i + j;
    CountBoundStep(msg, i, j);
    LoopStep(msg, g, b, i, j);
    if i + 1 == |msg| {
      assert EscapeLoop(b, i + 1, j, |msg|) == Fits(b);
    } else if k < 2 + |msg| && Escapable(msg[k - 2]) {
      LoopEndsOnFill(msg, g, Stuffed(b, k), i + 1, j + 1);
    } else {
      LoopEndsOnFill(msg, g, b, i + 1, j);
    }
  }

  /**
    A payload whose first escapable byte, at `i0`, is not its last, sent from
    an allocation filled with `g`: `caddx_tx` writes a frame, and the fill is
    on the wire at `LastRead(msg, i0 + 1, 1)`, a position that depends on the
    payload alone.
  */
  lemma {:induction false} TxShowsFill(errno: nat, msg: seq<byte>, i0: nat, g: byte, accepted: int)
    requires i0 + 1 < |msg| && Escapable(msg[i0]) && CountEscapable(msg[..i0]) == 0
    requires !Escapable(g)
    ensures var out := TxAsWritten(errno, msg, false, k => g, accepted);
      var p := LastRead(msg, i0 + 1, 1);
      && 2 + |msg| <= p < 2 + |msg| + CountEscapable(msg)
      && out.Done? && |out.wire| == 4 + |msg| + CountEscapable(msg)
      && out.wire[p] == g
  {
    var len := |msg|;
    var escs := CountEscapable(msg);
    var fill: nat -> byte := k => g;
    var buf := Allocation(msg, fill);
    CountZero(msg);
    CountZero(msg[..i0]);
    assert forall q :: 2 <= q < |buf| ==> buf[q] == Cell(msg, g, q);
    assert forall q :: 2 <= q < 2 + i0 ==> buf[q] == msg[..i0][q - 2];
    SkipPlain(buf, 0, i0, len);
    assert Unread(msg, g, buf, 2 + i0);
    CountBoundStep(msg, i0, 0);
    LoopStep(msg, g, buf, i0, 0);
    LoopEndsOnFill(msg, g, Stuffed(buf, 2 + i0), i0 + 1, 1);
  }

  /**
    The converse of `TxNoEscapes` and `TxLastEscapable`: once the first
    escapable byte is not the last payload byte, what goes on the wire depends
    on the contents of the fresh allocation.  Of two constant fills that need
    no stuffing, the wires differ, so at least one is not the intended frame.
  */
  lemma TxGarbageLeaks(errno: nat, msg: seq<byte>, i0: nat, g0: byte, g1: byte, accepted: int)
    requires i0 + 1 < |msg| && Escapable(msg[i0]) && CountEscapable(msg[..i0]) == 0
    requires !Escapable(g0) && !Escapable(g1) && g0 != g1
    ensures var out0 := TxAsWritten(errno, msg, false, k => g0, accepted);
      var out1 := TxAsWritten(errno, msg, false, k => g1, accepted);
      out0.Done? && out1.Done? && out0.wire != out1.wire
    ensures TxAsWritten(errno, msg, false, k => g0, accepted) != Sent(Frame(msg), errno, accepted) ||
      TxAsWritten(errno, msg, false, k => g1, accepted) != Sent(Frame(msg), errno, accepted)
  {
    TxShowsFill(errno, msg, i0, g0, accepted);
    TxShowsFill(errno, msg, i0, g1, accepted);
  }

  /** `{0x7e, 0x41}` goes out with a garbage byte where `0x41` belongs. */
  lemma TxClobberExample()
    ensures TxAsWritten(0, [0x7e, 0x41], false, k => 0, 7) == Done(0, 0, [0x7e, 0x02, 0x7d, 0x5e, 0x00, 0xc1, 0x44])
    ensures Frame([0x7e, 0x41]) == [0x7e, 0x02, 0x7d, 0x5e, 0x41, 0xc1, 0x44]
  {
    var msg: seq<byte> := [0x7e, 0x41];
    assert msg[..1] == [0x7e];
    assert CountEscapable(msg) == 1;
    var data: seq<byte> := [0x02, 0x7e, 0x41];
    assert data[..2] == [0x02, 0x7e] && data[..2][..1] == [0x02];
    assert [LengthByte(2)] + msg == data;
    assert Sum([0x02]) == 2;
    assert Sum([0x02, 0x7e]) == 128;
    assert Sum(data) == 193;
    assert PrefixSumTotal([0x02]) == 2;
    assert PrefixSumTotal([0x02, 0x7e]) == 130;
    assert PrefixSumTotal(data) == 323;
    assert FrameChecksum(msg) == 0xc144;
    EscapeConcat([0x7e], [0x41]);
    EscapedPairs();
    assert [0x41 as byte][1..] == [];
    assert [0x7e as byte] + [0x41] == msg;
  }

  /**
    Three escapable bytes followed by escapable garbage: the loop keeps
    finding markers past the payload and stores at index 13 of a 13-byte
    block.
  */
  lemma TxOverrunExample()
    ensures TxAsWritten(0, [0x7e, 0, 0x7e, 0, 0x7e, 0], false, k => 0x7e, 13) == Overrun(13)
  {
    var msg: seq<byte> := [0x7e, 0, 0x7e, 0, 0x7e, 0];
    assert msg[..5] == [0x7e, 0, 0x7e, 0, 0x7e];
    assert msg[..5][..4] == [0x7e, 0, 0x7e, 0];
    assert msg[..5][..4][..3] == [0x7e, 0, 0x7e];
    assert msg[..5][..4][..3][..2] == [0x7e, 0];
    assert msg[..5][..4][..3][..2][..1] == [0x7e];
    assert CountEscapable([0x7e]) == 1;
    assert CountEscapable([0x7e, 0]) == 1;
    assert CountEscapable([0x7e, 0, 0x7e]) == 2;
    assert CountEscapable([0x7e, 0, 0x7e, 0]) == 2;
    assert CountEscapable([0x7e, 0, 0x7e, 0, 0x7e]) == 3;
    assert CountEscapable(msg) == 3;
    var buf := Allocation(msg, k => 0x7e);
    assert buf == [0x7e, 6, 0x7e, 0, 0x7e, 0, 0x7e, 0, 0x7e, 0x7e, 0x7e, 0x7e, 0x7e];
    var b1 := buf[2 := 0x7d][3 := 0x5e];
    var b2 := b1[4 := 0x7d][5 := 0x5e];
    var b3 := b2[6 := 0x7d][7 := 0x5e];
    var b4 := b3[8 := 0x7d][9 := 0x5e];
    var b5 := b4[10 := 0x7d][11 := 0x5e];
    assert EscapeLoop(b5, 5, 5, 6) == OutOfBounds(13);
    assert EscapeLoop(b4, 4, 4, 6) == EscapeLoop(b5, 5, 5, 6);
    assert EscapeLoop(b3, 3, 3, 6) == EscapeLoop(b4, 4, 4, 6);
    assert EscapeLoop(b2, 2, 2, 6) == EscapeLoop(b3, 3, 3, 6);
    assert EscapeLoop(b1, 1, 1, 6) == EscapeLoop(b2, 2, 2, 6);
    assert EscapeLoop(buf, 0, 0, 6) == EscapeLoop(b1, 1, 1, 6);
  }

  /** The interface-configuration request sent by `main` goes out as `7E 01 21 22 23`. */
  lemma TxIfaceCfgReq(garbage: nat -> byte)
    ensures TxAsWritten(0, [IFACE_CFG_REQ], false, garbage, 5) == Done(0, 0, [0x7e, 0x01, 0x21, 0x22, 0x23])
  {
    assert [IFACE_CFG_REQ][..0] == [];
    TxNoEscapes(0, [IFACE_CFG_REQ], garbage, 5);
    FrameOfIfaceCfgReq();
  }

  /** Stuffing and counting one more payload byte. */
  lemma {:induction false} EscapePrefixStep(msg: seq<byte>, i: nat)
    requires i < |msg|
    ensures Escape(msg[..i + 1]) == Escape(msg[..i]) + EscapeByte(msg[i])
    ensures CountEscapable(msg[..i + 1]) == CountEscapable(msg[..i]) + (if Escapable(msg[i]) then 1 else 0)
    ensures CountEscapable(msg[..i + 1]) <= CountEscapable(msg)
  {
    var b := msg[i];
    assert msg[..i + 1] == msg[..i] + [b];
    assert msg == msg[..i + 1] + msg[i + 1..];
    CountConcat(msg[..i + 1], msg[i + 1..]);
    EscapeConcat(msg[..i], [b]);
    assert [b][1..] == [];
  }

  /** Stores the wire form of one payload byte at offset `at`; returns how many bytes it took. */
  method PutStuffed(p: array<byte>, at: nat, b: byte) returns (width: nat)
    requires at + |EscapeByte(b)| <= p.Length
    modifies p
    ensures width == |EscapeByte(b)|
    ensures p[..at + width] == old(p[..at]) + EscapeByte(b)
    ensures p[at + width..] == old(p[at + width..])
  {
    if b == START || b == ESC_LEAD {
      p[at] := ESC_LEAD;
      p[at + 1] := XorStartEsc(b);
      width := 2;
    } else {
      p[at] := b;
      width := 1;
    }
  }

  /** Stores the stuffed payload from index 2 on, reading every byte from `msg`; returns the final offset `j`. */
  method StuffCopy(p: array<byte>, msg: seq<byte>) returns (j: nat)
    requires p.Length >= 2 + |msg| + CountEscapable(msg)
    modifies p
    ensures j == CountEscapable(msg)
    ensures p[..2 + |msg| + j] == old(p[..2]) + Escape(msg)
    ensures p[2 + |msg| + j..] == old(p[2 + |msg| + j..])
  {
    ghost var head := p[..2];
    ghost var tail := p[2 + |msg| + CountEscapable(msg)..];
    j := 0;
    for i := 0 to |msg|
      invariant j == CountEscapable(msg[..i]) && j <= CountEscapable(msg)
      invariant p[..2 + i + j] == head + Escape(msg[..i])
      invariant p[2 + |msg| + CountEscapable(msg)..] == tail
    {
      EscapePrefixStep(msg, i);
      var width := PutStuffed(p, 2 + i + j, msg[i]);
      j := j + width - 1;
    }
    assert msg[..|msg|] == msg;
  }

  /**
    The encoder as evidently intended: the same allocation, but each payload
    byte is read from `msg` and stored at the running output offset, so
    nothing is overwritten.
  */
  method EncodeFrame(msg: seq<byte>) returns (wire: seq<byte>)
    ensures wire == Frame(msg)
  {
    var len := |msg|;
    var escs := CountEscapes(msg);
    var p := new byte[2 + len + escs + 2];
    p[0] := START;
    p[1] := LengthByte(len);
    var cksum := FletcherCksum([LengthByte(len)] + msg);
    var j := StuffCopy(p, msg);
    EscapeLength(msg);
    p[2 + len + escs] := cksum / 256;
    p[2 + len + escs + 1] := cksum % 256;
    wire := p[..];
    assert wire == [START, LengthByte(len)] + Escape(msg) + [cksum / 256, cksum % 256] by {
      assert wire[..2 + len + escs] == [START, LengthByte(len)] + Escape(msg);
    }
  }

  // ----- caddx_rx -----

  /** The result of one `read(fd, buf, 1)`: a byte, end of file (0), or -1 with `errno` set. */
  datatype ReadResult = Got(b: byte) | Eof | Fail(err: nat)

  /** Where the scan for the start marker stops. */
  datatype ScanEnd =
    | Found(errno: nat, consumed: nat)
    | Failed(consumed: nat)
    | Starved(errno: nat)

  /** How `caddx_rx` ends: it returns, or it is still waiting when the scripted input runs out. */
  datatype RxOutcome = Returned(ret: int, errno: nat, consumed: nat) | Blocked(errno: nat)

  /** The `errno` values after which the loop reads again. */
  predicate Retry(e: nat) {
    e == EAGAIN || e == EINTR
  }

  /** A read result that ends the loop with `EIO`, whatever `errno` was. */
  predicate HardFail(r: ReadResult) {
    r.Fail? && !Retry(r.err)
  }

  /** Read `m` is one the scan started at `k` goes past: not a marker, not a hard failure, and an end of file only under a stale `EAGAIN`/`EINTR`. */
  predicate Passed(errno: nat, input: seq<ReadResult>, k: nat, m: nat)
    requires m < |input|
  {
    && input[m] != Got(START) && !HardFail(input[m])
    && (input[m] == Eof ==> Retry(ErrnoBefore(errno, input, k, m)))
  }

  /**
    The loop of `caddx_rx` from read number `k`: a byte other than the marker
    is dropped; end of file retries only if `errno` already holds `EAGAIN` or
    `EINTR`; a failed read stores its error and retries only on those two.
  */
  function RxScan(errno: nat, input: seq<ReadResult>, k: nat): ScanEnd
    decreases |input| - k
  {
    if k >= |input| then Starved(errno)
    else match input[k]
      case Got(b) => if b == START then Found(errno, k + 1) else RxScan(errno, input, k + 1)
      case Eof => if Retry(errno) then RxScan(errno, input, k + 1) else Failed(k + 1)
      case Fail(e) => if Retry(e) then RxScan(e, input, k + 1) else Failed(k + 1)
  }

  /** `caddx_rx` as written: after the marker the result is read from `errno`, which may be stale. */
  function RxAsWritten(errno: nat, input: seq<ReadResult>): RxOutcome {
    match RxScan(errno, input, 0)
    case Found(e, n) => Returned(if e != 0 then -1 else 0, e, n)
    case Failed(n) => Returned(-1, EIO, n)
    case Starved(e) => Blocked(e)
  }

  /** `caddx_rx` as evidently intended: finding the marker is success. */
  function RxCorrected(errno: nat, input: seq<ReadResult>): RxOutcome {
    match RxScan(errno, input, 0)
    case Found(e, n) => Returned(0, e, n)
    case Failed(n) => Returned(-1, EIO, n)
    case Starved(e) => Blocked(e)
  }

  /** `caddx_rx`: the C loop over `buf[0]`, one scripted read per iteration. */
  method Rx(errno: nat, input: seq<ReadResult>) returns (out: RxOutcome)
    ensures out == RxAsWritten(errno, input)
  {
    var e := errno;
    var buf0: byte := 0;
    var k := 0;
    while buf0 != START
      invariant k <= |input|
      invariant buf0 != START ==> RxScan(e, input, k) == RxScan(errno, input, 0)
      invariant buf0 == START ==> RxScan(errno, input, 0) == Found(e, k)
      decreases |input| - k
    {
      if k == |input| {
        return Blocked(e);
      }
      var r := input[k];
      k := k + 1;
      match r
      case Got(b) =>
        buf0 := b;
      case Eof =>
        if !(e == EAGAIN || e == EINTR) {
          return Returned(-1, EIO, k);
        }
      case Fail(err) =>
        e := err;
        if !(e == EAGAIN || e == EINTR) {
          return Returned(-1, EIO, k);
        }
    }
    out := Returned(if e != 0 then -1 else 0, e, k);
  }

  /** `errno` after one read: a failed read stores its error, any other read leaves it alone. */
  function ErrnoAfter(errno: nat, r: ReadResult): nat {
    if r.Fail? then r.err else errno
  }

  /** The `errno` in force when the scan that started at `k` with `errno` makes read `m`: the error of the last failed read before it, or `errno`. */
  function ErrnoBefore(errno: nat, input: seq<ReadResult>, k: nat, m: nat): nat
    requires m <= |input|
  {
    if m <= k then errno else ErrnoAfter(ErrnoBefore(errno, input, k, m - 1), input[m - 1])
  }

  /** Starting the scan one read later, with the `errno` that read left behind, sees the same `errno` at every later read. */
  lemma {:induction false} ErrnoBeforeShift(errno: nat, input: seq<ReadResult>, k: nat, m: nat)
    requires k < m <= |input|
    ensures ErrnoBefore(errno, input, k, m) == ErrnoBefore(ErrnoAfter(errno, input[k]), input, k + 1, m)
  {
    if m > k + 1 {
      ErrnoBeforeShift(errno, input, k, m - 1);
    }
  }

  /**
    What the scan of caddx.c:121-136 does, read by read: it stops at the
    first marker, hard failure, or end of file met while `errno` is not
    `EAGAIN`/`EINTR`; every read it passes over is a non-marker byte, a
    retried failure, or an end of file met while `errno` is stale
    `EAGAIN`/`EINTR`; the marker's result carries the `errno` left by the
    last failed read.
  */
  lemma {:induction false} RxScanSpec(errno: nat, input: seq<ReadResult>, k: nat)
    ensures match RxScan(errno, input, k)
      case Found(e, n) =>
        && k < n <= |input| && input[n - 1] == Got(START)
        && e == ErrnoBefore(errno, input, k, n - 1) && (e == errno || Retry(e))
        && forall m :: k <= m < n - 1 ==> Passed(errno, input, k, m)
      case Failed(n) =>
        && k < n <= |input|
        && (HardFail(input[n - 1]) || (input[n - 1] == Eof && !Retry(ErrnoBefore(errno, input, k, n - 1))))
        && forall m :: k <= m < n - 1 ==> Passed(errno, input, k, m)
      case Starved(e) =>
        && e == ErrnoBefore(errno, input, k, |input|)
        && forall m :: k <= m < |input| ==> Passed(errno, input, k, m)
    decreases |input| - k
  {
    if k < |input| {
      var e' := ErrnoAfter(errno, input[k]);
      var go := match input[k]
        case Got(b) => b != START
        case Eof => Retry(errno)
        case Fail(e) => Retry(e);
      if go {
        RxScanSpec(e', input, k + 1);
        forall m | k < m <= |input|
          ensures ErrnoBefore(errno, input, k, m) == ErrnoBefore(e', input, k + 1, m)
        {
          ErrnoBeforeShift(errno, input, k, m);
        }
        assert Passed(errno, input, k, k);
        forall m | k + 1 <= m < |input| && Passed(e', input, k + 1, m)
          ensures Passed(errno, input, k, m)
        {
        }
      }
    }
  }

  /** Clean bytes up to the first marker: `caddx_rx` consumes exactly through the marker and returns 0 iff `errno` was 0. */
  lemma {:induction false} RxFindsFirstStart(errno: nat, input: seq<ReadResult>, f: nat)
    requires f < |input| && input[f] == Got(START)
    requires forall m :: 0 <= m < f ==> input[m].Got? && input[m].b != START
    ensures RxAsWritten(errno, input) == Returned(if errno == 0 then 0 else -1, errno, f + 1)
  {
    RxSkipsBytes(errno, input, 0, f);
  }

  /** Reading past bytes other than the marker changes nothing. */
  lemma {:induction false} RxSkipsBytes(errno: nat, input: seq<ReadResult>, k: nat, f: nat)
    requires k <= f <= |input|
    requires forall m :: k <= m < f ==> input[m].Got? && input[m].b != START
    ensures RxScan(errno, input, k) == RxScan(errno, input, f)
    decreases f - k
  {
    if k < f {
      RxSkipsBytes(errno, input, k + 1, f);
    }
  }

  /** A read failing with anything but `EAGAIN`/`EINTR` ends the call with -1 and `EIO`. */
  lemma RxHardFailure(errno: nat, input: seq<ReadResult>, f: nat)
    requires f < |input| && HardFail(input[f])
    requires forall m :: 0 <= m < f ==> input[m].Got? && input[m].b != START
    ensures RxAsWritten(errno, input) == Returned(-1, EIO, f + 1)
  {
    RxSkipsBytes(errno, input, 0, f);
  }

  /** End of file with a clear `errno` is not retried: it ends with `EIO`. */
  lemma RxEofFails(input: seq<ReadResult>, f: nat)
    requires f < |input| && input[f] == Eof
    requires forall m :: 0 <= m < f ==> input[m].Got? && input[m].b != START
    ensures RxAsWritten(0, input) == Returned(-1, EIO, f + 1)
  {
    RxSkipsBytes(0, input, 0, f);
  }

  /** Because `errno` is never cleared, a retried `EAGAIN` makes the call fail although the marker arrived. */
  lemma RxStaleErrno()
    ensures RxAsWritten(0, [Fail(EAGAIN), Got(START)]) == Returned(-1, EAGAIN, 2)
    ensures RxCorrected(0, [Fail(EAGAIN), Got(START)]) == Returned(0, EAGAIN, 2)
  {
    var input := [Fail(EAGAIN), Got(START)];
    assert RxScan(EAGAIN, input, 1) == Found(EAGAIN, 2);
    assert RxScan(0, input, 0) == Found(EAGAIN, 2);
  }

  /** The corrected receiver returns 0 exactly when the read it stopped at delivered the marker. */
  lemma RxCorrectedSucceedsIffFound(errno: nat, input: seq<ReadResult>)
    ensures var out := RxCorrected(errno, input);
      out.Returned? ==> 0 < out.consumed <= |input| && (out.ret == 0 <==> input[out.consumed - 1] == Got(START))
  {
    RxScanSpec(errno, input, 0);
  }

  /** Both receivers consume the same reads and agree whenever `errno` ends up 0. */
  lemma RxAgreesWhenErrnoClear(errno: nat, input: seq<ReadResult>)
    ensures RxAsWritten(errno, input).Returned? == RxCorrected(errno, input).Returned?
    ensures RxAsWritten(errno, input).Returned? ==>
      RxAsWritten(errno, input).consumed == RxCorrected(errno, input).consumed
      && (RxAsWritten(errno, input).errno == 0 ==> RxAsWritten(errno, input) == RxCorrected(errno, input))
  {
  }
}
