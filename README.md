# CADDX/NX serial framing, modelled in Dafny

This project models the serial framing layer of a small CADDX/NX-584 alarm
panel tool. It covers:

- **The Fletcher-255 checksum** (`fletcher_cksum`). util.c has it, and
  caddx.c has a verbatim copy.
- **The frame transmitter `caddx_tx`.** It counts the payload bytes that need
  stuffing and allocates `2 + len + escs + 2` bytes. It stores the start
  marker `0x7e` and the raw length byte, then copies the payload. It takes the
  checksum over the length byte and the unstuffed payload. It stuffs `0x7e` and
  `0x7d` in place. Last it stores the checksum high byte first and writes the
  whole buffer.
- **The receiver `caddx_rx`.** It discards input until the start marker
  arrives.
- **The message layouts of caddx.h.** These are the wire constants and type
  codes, the one-byte header (`type:6`, `reserved06:1`, `ack:1`), and the
  packed zone-status and partition-status reports.

## Modules

| file | module | what it holds |
|---|---|---|
| `bytes.dfy` | `Bytes` | `byte` as `0..255`, and the bits of a byte least significant first. Also bitwise `&` and the assignment of one bit. |
| `fletcher.dfy` | `Fletcher` | The checksum loop on `uint8_t` accumulators. Its closed form is `(Σb mod 255) * 256 + (Σ prefix sums mod 255)`, and the order properties follow from it. |
| `layout.dfy` | `Layout` | The constants, the escape XOR with `CADDX_START_ESC`, and the header fields. For each report, its size and the byte and bit of every one-bit field, in the LSB-first allocation GCC uses for packed bit-fields. |
| `framing.dfy` | `Framing` | The intended frame. `Escape` and `Unescape` do the stuffing. `Frame` is the whole frame, and `Deframe` is its inverse. |
| `caddx.dfy` | `Caddx` | `caddx_tx` and `caddx_rx` as written, each a method proved equal to a specification function. It also holds the corrected encoder and receiver. |

Both C functions report their result through the global `errno`, which is
never cleared. The model therefore treats it as explicit state: it is an input
parameter and part of every outcome.

The environment enters as parameters:

- The contents of the fresh `malloc` block are a function `garbage`. Byte `k`
  of the block is `garbage(k)` before anything is stored.
- A failed `malloc` is a boolean.
- The value `write` returns is an integer, `accepted`.
- The successive results of `read` are a script of `ReadResult`s.

An access outside the allocation is undefined behaviour in C. The model makes
it a distinct outcome (`Overrun`) and stops there.

## Model

| member | source | states |
|---|---|---|
| Fletcher.FletcherCksum | util.c:77-95 | The loop with its hand-coded wraparounds returns the closed form `Checksum(data)` for every input. The copy at caddx.c:47-65 has the same body, so both copies return the same value for every input. |
| Fletcher.WrapAddIsMod255 | util.c:83-87 | `if (255 - s < x) s++; s += x; if (s == 255) s = 0;` on a `uint8_t` below 255 equals `(s + x) % 255`. |
| Fletcher.StepIsMod255 | util.c:83-92 | One iteration sets `sum1 := (sum1 + b) % 255` and then `sum2 := (sum2 + sum1) % 255` with the new `sum1`. Both stay below 255. |
| Fletcher.RunIsClosedForm | util.c:82-94 | After the loop, `sum1` is the byte sum mod 255 and `sum2` is the sum of all prefix sums mod 255. |
| Fletcher.ChecksumBytes | util.c:86-94 | Both halves lie in 0..254, so neither checksum byte is ever `0xff` and the value is below `0xff00`. |
| Fletcher.Combine | util.c:94 | `(sum1 << 8) OR sum2` is a 16-bit value whose high byte is `sum1` and whose low byte is `sum2`. |
| Fletcher.EmptyChecksum | util.c:80-94 | The empty input gives checksum 0. |
| Fletcher.SumPermutation | util.c:83-87 | The byte sum depends only on the multiset of bytes. |
| Fletcher.HighIgnoresOrder | util.c:83-94 | The high checksum byte is the same for any reordering of the input. |
| Fletcher.LowDependsOnOrder | util.c:82-94 | The low byte depends on order: `[1,2]` gives `0x0304` and `[2,1]` gives `0x0305`. |
| Layout.MsgType | caddx.h:21 | The `type` field is a value below 64 taken from bits 0-5 of the header byte. |
| Layout.Header | caddx.h:20-24 | Packing a type below 64, a reserved bit and an ack bit gives a byte whose three fields read back as given. |
| Layout.HeaderOfFields | caddx.h:20-24 | Every header byte is exactly its three fields packed again, so the fields cover the byte. |
| Layout.HeaderMasks | caddx.h:9-10 | The bit-field view agrees with the masks: `type == h & 0x3f`, ack iff `h & 0x80`, reserved iff `h & 0x40`. |
| Layout.MsgTypeOfSixBit | caddx.h:10 | A byte below 64 is its own type code. |
| Layout.XorStartEsc | caddx.h:8 | XOR with `CADDX_START_ESC` flips bit 5 alone: the byte always changes, while bits 0-4 and 6-7 are kept. |
| Layout.TypeCodesAreSixBit | caddx.h:12-16 | The seven type codes (including `0x04` and `0x06` at lines 26 and 87) are pairwise distinct. The 6-bit mask leaves each unchanged. |
| Layout.ZoneFlagsEnumerate | caddx.h:27-85 | The 48 zone-status fields in declaration order are in bijection with 0..47. |
| Layout.ZoneStatusLayout | caddx.h:27-85 | Every field lies in bytes 2-7 of the 8-byte report, and distinct fields hold distinct bits. The m-th field is bit `m % 8` of byte `2 + m / 8`, so the fields tile the six bytes. |
| Layout.ZoneFlagIsMask | caddx.h:32-84 | Reading a field is the same as testing its byte against `1 << bit`. |
| Layout.ZoneConditionBits | caddx.h:68-71 | `faulted`, `tampered`, `trouble` and `bypassed` are masks `0x01`, `0x02`, `0x04` and `0x08` of byte 6. |
| Layout.WithZoneFlag | caddx.h:27-85 | Assigning one field makes it read back, and changes no other field, the header or the zone number. |
| Layout.PartFlagsEnumerate | caddx.h:88-148 | The 48 partition-status fields in declaration order are in bijection with 0..47. |
| Layout.PartStatusLayout | caddx.h:88-148 | Every field lies in bytes 2-8 of the 9-byte report and never in byte 6, which is `last_user_number`. Distinct fields hold distinct bits, and together they tile bytes 2-5 and 7-8. |
| Layout.PartFlagIsMask | caddx.h:93-147 | Reading a field is the same as testing its byte against `1 << bit`. |
| Layout.PartArmedAndSirenBits | caddx.h:99-103 | `armed` is mask `0x40` of byte 2 and `siren_on` is mask `0x02` of byte 3. |
| Layout.WithPartFlag | caddx.h:88-148 | Assigning one field makes it read back. It changes no other field, the header, the partition number or `last_user_number`. |
| Framing.EscapeLength | caddx.c:76-79 | Stuffing adds exactly one byte per payload byte equal to `0x7e` or `0x7d`. |
| Framing.EscapedPairs | caddx.c:88-92 | `0x7e` is sent as `7d 5e` and `0x7d` as `7d 5d`. |
| Framing.EscapeVerbatim | caddx.c:83-86 | A payload with nothing to stuff is sent unchanged. |
| Framing.EscapeHidesStart | caddx.c:88-92 | A stuffed payload never contains the start marker. |
| Framing.UnescapeEscape | caddx.c:88-92 | Unstuffing inverts stuffing. |
| Framing.LengthByte | caddx.c:82 | The length byte is the payload length truncated to 8 bits, which is the length itself below 256. |
| Framing.FrameChecksum | caddx.c:84 | The frame checksum is taken over the length byte followed by the unstuffed payload. Both of its bytes are below `0xff`. |
| Framing.FrameLayout | caddx.c:79-99 | A frame is `4 + len + escs` bytes: marker, raw length byte, stuffed payload, then checksum high byte and low byte. |
| Framing.DeframeFrame | caddx.c:79-99 | Deframing a frame gives its payload back. |
| Framing.FrameInjective | caddx.c:79-99 | Distinct payloads have distinct frames. |
| Framing.FrameOfIfaceCfgReq | caddx.c:208 | The one-byte message `{0x21}` of `main` frames to `7E 01 21 22 23`. |
| Caddx.CountEscapes | caddx.c:76-78 | The counting loop returns the number of payload bytes equal to `0x7e` or `0x7d`. |
| Caddx.Allocate | caddx.c:79-83 | The fresh `4 + len + escs` block holds the marker, the length byte and the payload, followed by garbage. |
| Caddx.StuffInPlace | caddx.c:86-95 | The in-place loop leaves the buffer `EscapeLoop` computes, or reports the first out-of-bounds index. |
| Caddx.Tx | caddx.c:69-113 | The C code step by step gives exactly `TxAsWritten` for every `errno`, payload, allocation outcome, garbage and `write` result. |
| Caddx.EscapeLoop | caddx.c:86-95 | The stuffing loop keeps the block's size and never changes the marker or the length byte. When it leaves the block, the index it reports lies past the end. |
| Caddx.TxFrameShape | caddx.c:79-112 | A sent frame is `2 + len + escs + 2` bytes. It begins with `7e` and the raw length byte, and ends with the checksum of the unstuffed payload, high byte first. A short write sets `EIO`, and the call returns 0 iff `errno` ends at 0, so a stale `errno` gives -1. |
| Caddx.TxOutOfMemory | caddx.c:79-80 | A failed `malloc` returns -1 with `ENOMEM` and writes nothing. |
| Caddx.TxNoEscapes | caddx.c:83-99 | When no payload byte is `0x7e` or `0x7d`, the loop is skipped and the wire is exactly `Frame(msg)`. |
| Caddx.TxLastEscapable | caddx.c:86-98 | When the only escapable byte is the last one, the wire is exactly `Frame(msg)`. |
| Caddx.TxClobbersSuccessor | caddx.c:86-95 | Let the first escapable byte not be last, and let the byte after it be neither `0x7e` nor `0x7d`. Replacing that byte with another such byte leaves the stuffed buffer unchanged, although the intended stuffed body changes. |
| Caddx.LoopEndsOnFill | caddx.c:86-95 | After one escape, with a constant fill that needs no stuffing, the loop stays in bounds. Its last iteration reads a fill cell below the checksum slot and leaves the fill byte there. |
| Caddx.TxShowsFill | caddx.c:79-112 | When the first escapable byte is not last, the wire carries the fill byte at a position inside the stuffed body. That position depends on the payload alone. |
| Caddx.TxGarbageLeaks | caddx.c:79-112 | The converse of `TxNoEscapes` and `TxLastEscapable`. When the first escapable byte is not last, two distinct constant fills that need no stuffing give different wires, so at least one is not `Frame(msg)`. The wire is therefore `Frame(msg)` for every allocation content exactly when there is no escapable byte or the only one is last. |
| Caddx.TxClobberExample | caddx.c:86-95 | Payload `7e 41` goes out as `7e 02 7d 5e 00 c1 44` when the garbage is zero, where `7e 02 7d 5e 41 c1 44` is intended. |
| Caddx.TxOverrunExample | caddx.c:86-95 | Payload `7e 00 7e 00 7e 00` with `0x7e` garbage makes the loop store at index 13 of a 13-byte block. |
| Caddx.TxIfaceCfgReq | caddx.c:208-224 | The request `{0x21}` sent by `main` goes out as `7E 01 21 22 23`. With a clear `errno` and a full write it returns 0. |
| Caddx.StuffCopy | caddx.c:86-95 | The corrected stuffing stores `Escape(msg)` after the two header bytes and changes nothing after it. |
| Caddx.EncodeFrame | caddx.c:69-99 | The corrected encoder produces exactly `Frame(msg)`, so `Deframe` recovers the payload. |
| Caddx.Rx | caddx.c:115-137 | The C loop gives exactly `RxAsWritten` for every entry `errno` and read script. |
| Caddx.RxScanSpec | caddx.c:121-127 | The scan stops at the first `0x7e`, at a hard failure, or at an end of file read while `errno` is neither `EAGAIN` nor `EINTR`. Every read it passes over is a non-marker byte, a failure with `EAGAIN`/`EINTR`, or an end of file read under such a stale `errno`. The `errno` it ends with is that of the last failed read, or the entry value when no read failed. |
| Caddx.RxFindsFirstStart | caddx.c:121-136 | On clean bytes it consumes exactly through the first marker. It returns 0 iff `errno` was 0 on entry. |
| Caddx.RxHardFailure | caddx.c:122-125 | A read failing with anything other than `EAGAIN`/`EINTR` ends with -1 and `EIO`. |
| Caddx.RxEofFails | caddx.c:122-125 | End of file with a clear `errno` is not retried. It ends with -1 and `EIO`. |
| Caddx.RxStaleErrno | caddx.c:121-136 | A retried `EAGAIN` followed by the marker returns -1. The corrected receiver returns 0. |
| Caddx.RxCorrectedSucceedsIffFound | caddx.c:121-136 | The corrected receiver returns 0 exactly when its last read delivered the marker. |
| Caddx.RxAgreesWhenErrnoClear | caddx.c:133-136 | Both receivers consume the same reads. They give the same outcome whenever `errno` ends at 0. |

## Left out

- `serial_init`, the baud table and the termios setup: this is operating-system line configuration, with no logic to model.
- `main`, `usage` and option parsing are process glue. Only `main`'s message `{0x21}` is used, as a test vector.
- `hexdump` is included from a file outside the repository, so its code is not visible. Its calls and the `printf` calls are left out. In `caddx_tx` they run before `write` (caddx.c:101-102), so their effect on `errno` is folded into the `errno` parameter. In `caddx_rx` they run after the scan (caddx.c:129-130), and the model assumes they leave `errno` unchanged.
- Rx: a `printf` or `hexdump` failure after the scan that sets `errno` is not modelled. The C code would then return -1 with that `errno`, where `RxAsWritten` keeps the `errno` the scan left. `RxFindsFirstStart` relies on the same assumption.
- `full_read`, `full_write` and `message` in util.c, all of util.h, and caddx-mon.c are I/O plumbing, logging and client setup.
- `free(p)` is left out: releasing memory has no observable effect in the model.
- The `out_len` parameter of `caddx_tx` is never written by the C code, so the model has no counterpart.
- The receive buffer `buf[100]`: only `buf[0]` is ever stored, so the model keeps that one byte.
- Tx: does not model 32-bit wrap-around of `2 + len + escs + 2`, `i` or `j`, because that needs a payload of about 4 GiB. The length byte's truncation to 8 bits is modelled.
- Tx: an `Overrun` outcome stops the model at the first access outside the block. What C does after that is undefined.
- Rx: when the read script runs out, the outcome is `Blocked`. A real `read` would wait, and on a repeated end of file with `errno` equal to `EAGAIN` or `EINTR` the C loop never returns.
- The checksum bytes are not stuffed, as the code does: the last two bytes may be `0x7e` or `0x7d`.
- No ACK/NAK handshake, receive-side length or checksum validation, subscriber gateway or event classifier exists in the C sources, so none of them is modelled. `Deframe` is only a reference inverse for `Frame`.
- The protocol comment at caddx.c:44 labels the last byte "Fletcher sum1". The code stores `sum2` there, and the model follows the code.
- Bytes are integers in 0..255 rather than bit-vectors, and every wrap at 256 is written out.

## Findings

| source | as written | input that shows it | evidently intended | confidence | as-written member | corrected member |
|---|---|---|---|---|---|---|
| caddx.c:86-95 | The payload is copied unshifted. Stuffing a byte stores its second escape byte over the next payload byte, and later iterations read at the shifted offset. | Payload `7e 41` with zero garbage is sent as `7e 02 7d 5e 00 c1 44`. | `7e 02 7d 5e 41 c1 44` | high; not executed | Caddx.TxClobberExample | Caddx.EncodeFrame |
| caddx.c:86-95 | The shifted reads run into the uninitialised tail. Escapable garbage there keeps the loop stuffing past the end of the block. | Payload `7e 00 7e 00 7e 00` with a block of `0x7e` garbage stores at index 13 of a 13-byte block. | Every access stays within the `4 + len + escs` bytes. | high; not executed | Caddx.TxOverrunExample | Caddx.EncodeFrame |
| caddx.c:121-136 | `errno` is never cleared. After a retried `EAGAIN` or `EINTR`, the function returns -1 even though the marker arrived. | `errno` 0 on entry; reads: failure with `EAGAIN`, then `0x7e`. The result is -1 with `errno` `EAGAIN`. | Return 0 once the marker is read. | medium; not executed | Caddx.RxStaleErrno | Caddx.RxCorrected |
