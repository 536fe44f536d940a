/**
  The message layouts of caddx.h: the wire constants, the one-byte message
  header (`struct caddx_msg`) and the packed zone-status and
  partition-status reports.

  The C structs are read by overlaying them on the payload bytes.  GCC packs
  one-bit fields least significant bit first, in declaration order, eight to
  a byte; the accessors below state that allocation explicitly over a byte
  sequence.
*/
module Layout {

  import opened Bytes

  // Wire constants and message type codes.
  const START: byte := 0x7e
  const START_ESC: byte := 0x20
  const ACK_REQ: byte := 0x80
  const MSG_MASK: byte := 0x3f

  const IFACE_CFG: byte := 0x01
  const IFACE_CFG_REQ: byte := 0x21
  const PART_STATUS_REQ: byte := 0x26
  const ACK: byte := 0x1d
  const NAK: byte := 0x1e
  const ZONE_STATUS: byte := 0x04
  const PART_STATUS: byte := 0x06

  /**
    `b ^ CADDX_START_ESC`.  `CADDX_START_ESC` is the single bit 5, so the XOR
    subtracts it when that bit is set and adds it otherwise.
  */
  function XorStartEsc(b: byte): (r: byte)
    ensures r / 64 == b / 64 && r % 32 == b % 32 && r != b
  {
    if (b / START_ESC) % 2 == 1 then b - START_ESC else b + START_ESC
  }

  /** XOR with `CADDX_START_ESC` twice gives the byte back. */
  lemma XorStartEscTwice(b: byte)
    ensures XorStartEsc(XorStartEsc(b)) == b
  {
  }

  /** Every type code caddx.h defines. */
  const TypeCodes: seq<byte> := [IFACE_CFG, IFACE_CFG_REQ, PART_STATUS_REQ, ACK, NAK, ZONE_STATUS, PART_STATUS]

  // ----- struct caddx_msg: type:6, reserved06:1, ack:1 -----

  /** The 6-bit `type` field: bits 0-5 of the header byte. */
  function MsgType(h: byte): (t: byte)
    ensures t < 64
  {
    BitsOfFromBits(Bits(h)[..6]);
    assert Pow2(6) == 64;
    FromBits(Bits(h)[..6])
  }

  /** The `reserved06` field: bit 6 of the header byte. */
  predicate Reserved06(h: byte) {
    Bit(h, 6)
  }

  /** The `ack` field: bit 7 of the header byte. */
  predicate AckRequested(h: byte) {
    Bit(h, 7)
  }

  /** The header byte holding the given field values. */
  function Header(t: byte, reserved: bool, ack: bool): (h: byte)
    requires t < 64
    ensures MsgType(h) == t && Reserved06(h) == reserved && AckRequested(h) == ack
  {
    assert Pow2(6) == 64;
    FromBitsOfBits(t, 6);
    var bits := BitsOf(t, 6) + [reserved, ack];
    var h := FromBits8(bits);
    assert Bits(h)[..6] == BitsOf(t, 6);
    h
  }

  /** Every header byte is made of its three fields. */
  lemma HeaderOfFields(h: byte)
    ensures Header(MsgType(h), Reserved06(h), AckRequested(h)) == h
  {
    var r := Header(MsgType(h), Reserved06(h), AckRequested(h));
    BitsOfFromBits(Bits(h)[..6]);
    assert Bits(r)[..6] == Bits(h)[..6] by {
      BitsOfFromBits(Bits(r)[..6]);
    }
    forall k | 0 <= k < 8
      ensures Bit(r, k) == Bit(h, k)
    {
      if k < 6 {
        assert Bits(r)[k] == Bits(r)[..6][k];
      }
    }
    BitsDetermineByte(r, h);
  }

  /** Appending clear high bits does not change a number. */
  lemma {:induction false} FromBitsClearTail(bits: seq<bool>)
    ensures FromBits(bits + [false]) == FromBits(bits)
  {
    if bits != [] {
      FromBitsClearTail(bits[1..]);
      assert (bits + [false])[1..] == bits[1..] + [false];
    }
  }

  /** The bit-field view of the header agrees with the mask macros `CADDX_MSG_MASK` and `CADDX_ACK_REQ`. */
  lemma HeaderMasks(h: byte)
    ensures MsgType(h) == And(h, MSG_MASK)
    ensures AckRequested(h) <==> And(h, ACK_REQ) != 0
    ensures Reserved06(h) <==> And(h, 0x40) != 0
  {
    assert Pow2(8) == 256;
    assert Bits(MSG_MASK) == [true, true, true, true, true, true, false, false];
    var r := And(h, MSG_MASK);
    assert Bits(r) == Bits(h)[..6] + [false, false];
    FromBitsOfBits(r, 8);
    FromBitsClearTail(Bits(h)[..6]);
    FromBitsClearTail(Bits(h)[..6] + [false]);
    assert Bits(h)[..6] + [false, false] == Bits(h)[..6] + [false] + [false];
    assert Pow2(7) == ACK_REQ as nat && Pow2(6) == 0x40;
    BitIsMask(h, 7);
    BitIsMask(h, 6);
  }

  /** The low `k` of `n` bits are the bits of a `k`-bit split. */
  lemma {:induction false} BitsPrefix(x: nat, n: nat, k: nat)
    requires k <= n
    ensures BitsOf(x, n)[..k] == BitsOf(x, k)
  {
    if k > 0 {
      BitsPrefix(x / 2, n - 1, k - 1);
      assert BitsOf(x, n)[..k] == [x % 2 == 1] + BitsOf(x, n)[1..][..k - 1];
    }
  }

  /** A byte below 64 has no bit above the type field, so it is its own type code. */
  lemma MsgTypeOfSixBit(c: byte)
    requires c < 64
    ensures MsgType(c) == c
  {
    BitsPrefix(c, 8, 6);
    assert Pow2(6) == 64;
    FromBitsOfBits(c, 6);
  }

  /** The type codes are pairwise distinct and each survives the 6-bit mask unchanged. */
  lemma TypeCodesAreSixBit()
    ensures forall i, j :: 0 <= i < j < |TypeCodes| ==> TypeCodes[i] != TypeCodes[j]
    ensures forall c :: c in TypeCodes ==> c < 64 && MsgType(c) == c && And(c, MSG_MASK) == c
  {
    forall c | c in TypeCodes
      ensures c < 64 && MsgType(c) == c && And(c, MSG_MASK) == c
    {
      MsgTypeOfSixBit(c);
      HeaderMasks(c);
    }
  }

  // ----- struct caddx_zone_status -----

  /** `sizeof(struct caddx_zone_status)`: header, zone number, six bytes of one-bit fields. */
  const ZoneStatusSize: nat := 8

  datatype ZoneFlag =
    // byte 2: partition membership
    | Part1En | Part2En | Part3En | Part4En | Part5En | Part6En | Part7En | Part8En
    // byte 3
    | Fire | Hour24 | KeySwitch | Follower | EntryExitDelay1 | EntryExitDelay2 | Interior | LocalOnly
    // byte 4
    | KeypadSounder | YelpingSiren | SteadySiren | Chime | Bypassable | GroupBypassable | ForceArmable | EntryGuard
    // byte 5
    | FastLoopResponse | DoubleEolTamper | Trouble0 | CrossZone | DialerDelay | SwingerShutdown | Restorable | ListenIn
    // byte 6: condition
    | Faulted | Tampered | Trouble | Bypassed | Inhibited | LowBattery | LossOfSupervision | Reserved77
    // byte 7
    | AlarmMemory | BypassMemory | Reserved82 | Reserved83 | Reserved84 | Reserved85 | Reserved86 | Reserved87

  /** The `m`-th one-bit field of the struct, in declaration order. */
  function ZoneFlagAt(m: nat): ZoneFlag
    requires m < 48
  {
    match m
    case 0 => ZoneFlag.Part1En
    case 1 => ZoneFlag.Part2En
    case 2 => ZoneFlag.Part3En
    case 3 => ZoneFlag.Part4En
    case 4 => ZoneFlag.Part5En
    case 5 => ZoneFlag.Part6En
    case 6 => ZoneFlag.Part7En
    case 7 => ZoneFlag.Part8En
    case 8 => ZoneFlag.Fire
    case 9 => ZoneFlag.Hour24
    case 10 => ZoneFlag.KeySwitch
    case 11 => ZoneFlag.Follower
    case 12 => ZoneFlag.EntryExitDelay1
    case 13 => ZoneFlag.EntryExitDelay2
    case 14 => ZoneFlag.Interior
    case 15 => ZoneFlag.LocalOnly
    case 16 => ZoneFlag.KeypadSounder
    case 17 => ZoneFlag.YelpingSiren
    case 18 => ZoneFlag.SteadySiren
    case 19 => ZoneFlag.Chime
    case 20 => ZoneFlag.Bypassable
    case 21 => ZoneFlag.GroupBypassable
    case 22 => ZoneFlag.ForceArmable
    case 23 => ZoneFlag.EntryGuard
    case 24 => ZoneFlag.FastLoopResponse
    case 25 => ZoneFlag.DoubleEolTamper
    case 26 => ZoneFlag.Trouble0
    case 27 => ZoneFlag.CrossZone
    case 28 => ZoneFlag.DialerDelay
    case 29 => ZoneFlag.SwingerShutdown
    case 30 => ZoneFlag.Restorable
    case 31 => ZoneFlag.ListenIn
    case 32 => ZoneFlag.Faulted
    case 33 => ZoneFlag.Tampered
    case 34 => ZoneFlag.Trouble
    case 35 => ZoneFlag.Bypassed
    case 36 => ZoneFlag.Inhibited
    case 37 => ZoneFlag.LowBattery
    case 38 => ZoneFlag.LossOfSupervision
    case 39 => ZoneFlag.Reserved77
    case 40 => ZoneFlag.AlarmMemory
    case 41 => ZoneFlag.BypassMemory
    case 42 => ZoneFlag.Reserved82
    case 43 => ZoneFlag.Reserved83
    case 44 => ZoneFlag.Reserved84
    case 45 => ZoneFlag.Reserved85
    case 46 => ZoneFlag.Reserved86
    case _ => ZoneFlag.Reserved87
  }

  /** The declaration position of a field among the one-bit fields of the struct. */
  function ZoneFlagOrdinal(f: ZoneFlag): (k: nat)
    ensures k < 48
  {
    match f
    case Part1En => 0
    case Part2En => 1
    case Part3En => 2
    case Part4En => 3
    case Part5En => 4
    case Part6En => 5
    case Part7En => 6
    case Part8En => 7
    case Fire => 8
    case Hour24 => 9
    case KeySwitch => 10
    case Follower => 11
    case EntryExitDelay1 => 12
    case EntryExitDelay2 => 13
    case Interior => 14
    case LocalOnly => 15
    case KeypadSounder => 16
    case YelpingSiren => 17
    case SteadySiren => 18
    case Chime => 19
    case Bypassable => 20
    case GroupBypassable => 21
    case ForceArmable => 22
    case EntryGuard => 23
    case FastLoopResponse => 24
    case DoubleEolTamper => 25
    case Trouble0 => 26
    case CrossZone => 27
    case DialerDelay => 28
    case SwingerShutdown => 29
    case Restorable => 30
    case ListenIn => 31
    case Faulted => 32
    case Tampered => 33
    case Trouble => 34
    case Bypassed => 35
    case Inhibited => 36
    case LowBattery => 37
    case LossOfSupervision => 38
    case Reserved77 => 39
    case AlarmMemory => 40
    case BypassMemory => 41
    case Reserved82 => 42
    case Reserved83 => 43
    case Reserved84 => 44
    case Reserved85 => 45
    case Reserved86 => 46
    case Reserved87 => 47
  }

  /** The byte of the report that holds a field. */
  function ZoneFlagByte(f: ZoneFlag): nat {
    2 + ZoneFlagOrdinal(f) / 8
  }

  /** The bit (0 = least significant) of that byte that holds a field. */
  function ZoneFlagBit(f: ZoneFlag): nat {
    ZoneFlagOrdinal(f) % 8
  }

  /** Reads a one-bit field of a zone-status report. */
  predicate ZoneFlagSet(report: seq<byte>, f: ZoneFlag)
    requires |report| == ZoneStatusSize
  {
    Bit(report[ZoneFlagByte(f)], ZoneFlagBit(f))
  }

  /** The `zone` field: byte 1. */
  function ZoneNumber(report: seq<byte>): byte
    requires |report| == ZoneStatusSize
  {
    report[1]
  }

  /** `ZoneFlagOrdinal` and `ZoneFlagAt` are inverse: a bijection between the 48 declared fields and 0..47. */
  lemma ZoneFlagsEnumerate()
    ensures forall f :: ZoneFlagAt(ZoneFlagOrdinal(f)) == f
    ensures forall m :: 0 <= m < 48 ==> ZoneFlagOrdinal(ZoneFlagAt(m)) == m
  {
    ZoneFlagAtOrdinal();
    ZoneFlagOrdinalAt();
  }

  /** Every position 0..47 names a field declared there. */
  lemma ZoneFlagOrdinalAt()
    ensures forall m :: 0 <= m < 48 ==> ZoneFlagOrdinal(ZoneFlagAt(m)) == m
  {
  }

  /** Every field is found again at its own position. */
  lemma ZoneFlagAtOrdinal()
    ensures forall f :: ZoneFlagAt(ZoneFlagOrdinal(f)) == f
  {
    forall f ensures ZoneFlagAt(ZoneFlagOrdinal(f)) == f {
      match f
      case Part1En =>
      case Part2En =>
      case Part3En =>
      case Part4En =>
      case Part5En =>
      case Part6En =>
      case Part7En =>
      case Part8En =>
      case Fire =>
      case Hour24 =>
      case KeySwitch =>
      case Follower =>
      case EntryExitDelay1 =>
      case EntryExitDelay2 =>
      case Interior =>
      case LocalOnly =>
      case KeypadSounder =>
      case YelpingSiren =>
      case SteadySiren =>
      case Chime =>
      case Bypassable =>
      case GroupBypassable =>
      case ForceArmable =>
      case EntryGuard =>
      case FastLoopResponse =>
      case DoubleEolTamper =>
      case Trouble0 =>
      case CrossZone =>
      case DialerDelay =>
      case SwingerShutdown =>
      case Restorable =>
      case ListenIn =>
      case Faulted =>
      case Tampered =>
      case Trouble =>
      case Bypassed =>
      case Inhibited =>
      case LowBattery =>
      case LossOfSupervision =>
      case Reserved77 =>
      case AlarmMemory =>
      case BypassMemory =>
      case Reserved82 =>
      case Reserved83 =>
      case Reserved84 =>
      case Reserved85 =>
      case Reserved86 =>
      case Reserved87 =>
    }
  }

  /**
    Every field lies in bytes 2-7, distinct fields occupy distinct bits, and
    every bit of bytes 2-7 belongs to a field (the `m`-th declared field sits
    at byte `2 + m / 8`, bit `m % 8`): the one-bit fields exactly tile the six
    bytes after the zone number.
  */
  lemma ZoneStatusLayout()
    ensures forall f :: 2 <= ZoneFlagByte(f) < ZoneStatusSize && ZoneFlagBit(f) < 8
    ensures forall f, g :: ZoneFlagByte(f) == ZoneFlagByte(g) && ZoneFlagBit(f) == ZoneFlagBit(g) ==> f == g
    ensures forall m :: 0 <= m < 48 ==> ZoneFlagByte(ZoneFlagAt(m)) == 2 + m / 8 && ZoneFlagBit(ZoneFlagAt(m)) == m % 8
  {
    ZoneFlagsEnumerate();
    forall f, g | ZoneFlagByte(f) == ZoneFlagByte(g) && ZoneFlagBit(f) == ZoneFlagBit(g)
      ensures f == g
    {
      assert ZoneFlagOrdinal(f) == ZoneFlagOrdinal(g);
    }
  }

  /** Reading a field is testing its byte against the mask `1 << bit`. */
  lemma ZoneFlagIsMask(report: seq<byte>, f: ZoneFlag)
    requires |report| == ZoneStatusSize
    ensures ZoneFlagByte(f) < ZoneStatusSize && ZoneFlagBit(f) < 8
    ensures ZoneFlagSet(report, f) <==> And(report[ZoneFlagByte(f)], Pow2(ZoneFlagBit(f))) != 0
  {
    BitIsMask(report[ZoneFlagByte(f)], ZoneFlagBit(f));
  }

  /** The condition bits the monitor reads: `faulted`, `tampered`, `trouble`, `bypassed` are bits 0-3 of byte 6. */
  lemma ZoneConditionBits(report: seq<byte>)
    requires |report| == ZoneStatusSize
    ensures ZoneFlagSet(report, ZoneFlag.Faulted) <==> And(report[6], 0x01) != 0
    ensures ZoneFlagSet(report, ZoneFlag.Tampered) <==> And(report[6], 0x02) != 0
    ensures ZoneFlagSet(report, ZoneFlag.Trouble) <==> And(report[6], 0x04) != 0
    ensures ZoneFlagSet(report, ZoneFlag.Bypassed) <==> And(report[6], 0x08) != 0
  {
    assert Pow2(0) == 1 && Pow2(1) == 2 && Pow2(2) == 4 && Pow2(3) == 8;
    assert ZoneFlagOrdinal(ZoneFlag.Faulted) == 32 && ZoneFlagOrdinal(ZoneFlag.Tampered) == 33;
    assert ZoneFlagOrdinal(ZoneFlag.Trouble) == 34 && ZoneFlagOrdinal(ZoneFlag.Bypassed) == 35;
    ZoneFlagIsMask(report, ZoneFlag.Faulted);
    ZoneFlagIsMask(report, ZoneFlag.Tampered);
    ZoneFlagIsMask(report, ZoneFlag.Trouble);
    ZoneFlagIsMask(report, ZoneFlag.Bypassed);
  }

  /** Assigning one field of a zone-status report: that field reads back, nothing else changes. */
  function WithZoneFlag(report: seq<byte>, f: ZoneFlag, v: bool): (r: seq<byte>)
    requires |report| == ZoneStatusSize
    ensures |r| == ZoneStatusSize
    ensures ZoneFlagSet(r, f) == v
    ensures forall g :: g != f ==> ZoneFlagSet(r, g) == ZoneFlagSet(report, g)
    ensures r[0] == report[0] && ZoneNumber(r) == ZoneNumber(report)
  {
    ZoneFlagUpdateKeepsOthers(report, f, v);
    report[ZoneFlagByte(f) := SetBit(report[ZoneFlagByte(f)], ZoneFlagBit(f), v)]
  }

  /** Setting the bit of one field of a zone-status report leaves every other field as it was. */
  lemma ZoneFlagUpdateKeepsOthers(report: seq<byte>, f: ZoneFlag, v: bool)
    requires |report| == ZoneStatusSize
    ensures 2 <= ZoneFlagByte(f) < ZoneStatusSize && ZoneFlagBit(f) < 8
    ensures var r := report[ZoneFlagByte(f) := SetBit(report[ZoneFlagByte(f)], ZoneFlagBit(f), v)];
      forall g :: g != f ==> ZoneFlagSet(r, g) == ZoneFlagSet(report, g)
  {
    ZoneStatusLayout();
    var r := report[ZoneFlagByte(f) := SetBit(report[ZoneFlagByte(f)], ZoneFlagBit(f), v)];
    forall g | g != f
      ensures ZoneFlagSet(r, g) == ZoneFlagSet(report, g)
    {
      if ZoneFlagByte(g) == ZoneFlagByte(f) {
        assert ZoneFlagBit(g) != ZoneFlagBit(f);
      }
    }
  }

  // ----- struct caddx_part_status -----

  /** `sizeof(struct caddx_part_status)`: header, partition number, four flag bytes, `last_user_number`, two flag bytes. */
  const PartStatusSize: nat := 9

  /** Byte 6 of a partition-status report is `last_user_number`, not one-bit fields. */
  const LastUserByte: nat := 6

  datatype PartFlag =
    // byte 2
    | BypassCodeRequired | FireTrouble | Fire | PulsingBuzzer | TlmFaultMemory | Reserved25 | Armed | Instant
    // byte 3
    | PreviousAlarm | SirenOn | SteadySirenOn | AlarmMemory | Tamper | CancelCommandEntered | CodeEntered | CancelPending
    // byte 4
    | Reserved40 | SilentExitEnabled | Entryguard | ChimeModeOn | Entry | DelayExpirationWarning | Exit1 | Exit2
    // byte 5
    | LedExtinguish | CrossTiming | RecentClosingBeingTimed | Reserved53 | ExitErrorTriggered | AutoHomeInhibited | SensorLowBattery | SensorLostSupervision
    // byte 7 (byte 6 is last_user_number)
    | ZoneBypassed | ForceArmTriggeredByAutoArm | ReadyToArm | ReadyToForceArm | ValidPinAccepted | ChimeOn | ErrorBeep | ToneOn
    // byte 8
    | Entry1 | OpenPeriod | AlarmSentUsingPhone1 | AlarmSentUsingPhone2 | AlarmSentUsingPhone3 | CancelReportIsInStack | KeyswitchArmed | DelayTripInProgress

  /** The `m`-th one-bit field of the struct, in declaration order. */
  function PartFlagAt(m: nat): PartFlag
    requires m < 48
  {
    match m
    case 0 => PartFlag.BypassCodeRequired
    case 1 => PartFlag.FireTrouble
    case 2 => PartFlag.Fire
    case 3 => PartFlag.PulsingBuzzer
    case 4 => PartFlag.TlmFaultMemory
    case 5 => PartFlag.Reserved25
    case 6 => PartFlag.Armed
    case 7 => PartFlag.Instant
    case 8 => PartFlag.PreviousAlarm
    case 9 => PartFlag.SirenOn
    case 10 => PartFlag.SteadySirenOn
    case 11 => PartFlag.AlarmMemory
    case 12 => PartFlag.Tamper
    case 13 => PartFlag.CancelCommandEntered
    case 14 => PartFlag.CodeEntered
    case 15 => PartFlag.CancelPending
    case 16 => PartFlag.Reserved40
    case 17 => PartFlag.SilentExitEnabled
    case 18 => PartFlag.Entryguard
    case 19 => PartFlag.ChimeModeOn
    case 20 => PartFlag.Entry
    case 21 => PartFlag.DelayExpirationWarning
    case 22 => PartFlag.Exit1
    case 23 => PartFlag.Exit2
    case 24 => PartFlag.LedExtinguish
    case 25 => PartFlag.CrossTiming
    case 26 => PartFlag.RecentClosingBeingTimed
    case 27 => PartFlag.Reserved53
    case 28 => PartFlag.ExitErrorTriggered
    case 29 => PartFlag.AutoHomeInhibited
    case 30 => PartFlag.SensorLowBattery
    case 31 => PartFlag.SensorLostSupervision
    case 32 => PartFlag.ZoneBypassed
    case 33 => PartFlag.ForceArmTriggeredByAutoArm
    case 34 => PartFlag.ReadyToArm
    case 35 => PartFlag.ReadyToForceArm
    case 36 => PartFlag.ValidPinAccepted
    case 37 => PartFlag.ChimeOn
    case 38 => PartFlag.ErrorBeep
    case 39 => PartFlag.ToneOn
    case 40 => PartFlag.Entry1
    case 41 => PartFlag.OpenPeriod
    case 42 => PartFlag.AlarmSentUsingPhone1
    case 43 => PartFlag.AlarmSentUsingPhone2
    case 44 => PartFlag.AlarmSentUsingPhone3
    case 45 => PartFlag.CancelReportIsInStack
    case 46 => PartFlag.KeyswitchArmed
    case _ => PartFlag.DelayTripInProgress
  }

  /** The declaration position of a field among the one-bit fields of the struct. */
  function PartFlagOrdinal(f: PartFlag): (k: nat)
    ensures k < 48
  {
    match f
    case BypassCodeRequired => 0
    case FireTrouble => 1
    case Fire => 2
    case PulsingBuzzer => 3
    case TlmFaultMemory => 4
    case Reserved25 => 5
    case Armed => 6
    case Instant => 7
    case PreviousAlarm => 8
    case SirenOn => 9
    case SteadySirenOn => 10
    case AlarmMemory => 11
    case Tamper => 12
    case CancelCommandEntered => 13
    case CodeEntered => 14
    case CancelPending => 15
    case Reserved40 => 16
    case SilentExitEnabled => 17
    case Entryguard => 18
    case ChimeModeOn => 19
    case Entry => 20
    case DelayExpirationWarning => 21
    case Exit1 => 22
    case Exit2 => 23
    case LedExtinguish => 24
    case CrossTiming => 25
    case RecentClosingBeingTimed => 26
    case Reserved53 => 27
    case ExitErrorTriggered => 28
    case AutoHomeInhibited => 29
    case SensorLowBattery => 30
    case SensorLostSupervision => 31
    case ZoneBypassed => 32
    case ForceArmTriggeredByAutoArm => 33
    case ReadyToArm => 34
    case ReadyToForceArm => 35
    case ValidPinAccepted => 36
    case ChimeOn => 37
    case ErrorBeep => 38
    case ToneOn => 39
    case Entry1 => 40
    case OpenPeriod => 41
    case AlarmSentUsingPhone1 => 42
    case AlarmSentUsingPhone2 => 43
    case AlarmSentUsingPhone3 => 44
    case CancelReportIsInStack => 45
    case KeyswitchArmed => 46
    case DelayTripInProgress => 47
  }

  /** The byte of the report that holds a field: bytes 2-5, then 7-8 after `last_user_number`. */
  function PartFlagByte(f: PartFlag): nat {
    var k := PartFlagOrdinal(f);
    if k < 32 then 2 + k / 8 else 3 + k / 8
  }

  /** The bit (0 = least significant) of that byte that holds a field. */
  function PartFlagBit(f: PartFlag): nat {
    PartFlagOrdinal(f) % 8
  }

  /** Reads a one-bit field of a partition-status report. */
  predicate PartFlagSet(report: seq<byte>, f: PartFlag)
    requires |report| == PartStatusSize
  {
    Bit(report[PartFlagByte(f)], PartFlagBit(f))
  }

  /** The `part` field: byte 1. */
  function PartNumber(report: seq<byte>): byte
    requires |report| == PartStatusSize
  {
    report[1]
  }

  /** The `last_user_number` field: byte 6. */
  function LastUserNumber(report: seq<byte>): byte
    requires |report| == PartStatusSize
  {
    report[LastUserByte]
  }

  /** `PartFlagOrdinal` and `PartFlagAt` are inverse: a bijection between the 48 declared fields and 0..47. */
  lemma PartFlagsEnumerate()
    ensures forall f :: PartFlagAt(PartFlagOrdinal(f)) == f
    ensures forall m :: 0 <= m < 48 ==> PartFlagOrdinal(PartFlagAt(m)) == m
  {
    PartFlagAtOrdinal();
    PartFlagOrdinalAt();
  }

  /** Every position 0..47 names a field declared there. */
  lemma PartFlagOrdinalAt()
    ensures forall m :: 0 <= m < 48 ==> PartFlagOrdinal(PartFlagAt(m)) == m
  {
  }

  /** Every field is found again at its own position. */
  lemma PartFlagAtOrdinal()
    ensures forall f :: PartFlagAt(PartFlagOrdinal(f)) == f
  {
    forall f ensures PartFlagAt(PartFlagOrdinal(f)) == f {
      match f
      case BypassCodeRequired =>
      case FireTrouble =>
      case Fire =>
      case PulsingBuzzer =>
      case TlmFaultMemory =>
      case Reserved25 =>
      case Armed =>
      case Instant =>
      case PreviousAlarm =>
      case SirenOn =>
      case SteadySirenOn =>
      case AlarmMemory =>
      case Tamper =>
      case CancelCommandEntered =>
      case CodeEntered =>
      case CancelPending =>
      case Reserved40 =>
      case SilentExitEnabled =>
      case Entryguard =>
      case ChimeModeOn =>
      case Entry =>
      case DelayExpirationWarning =>
      case Exit1 =>
      case Exit2 =>
      case LedExtinguish =>
      case CrossTiming =>
      case RecentClosingBeingTimed =>
      case Reserved53 =>
      case ExitErrorTriggered =>
      case AutoHomeInhibited =>
      case SensorLowBattery =>
      case SensorLostSupervision =>
      case ZoneBypassed =>
      case ForceArmTriggeredByAutoArm =>
      case ReadyToArm =>
      case ReadyToForceArm =>
      case ValidPinAccepted =>
      case ChimeOn =>
      case ErrorBeep =>
      case ToneOn =>
      case Entry1 =>
      case OpenPeriod =>
      case AlarmSentUsingPhone1 =>
      case AlarmSentUsingPhone2 =>
      case AlarmSentUsingPhone3 =>
      case CancelReportIsInStack =>
      case KeyswitchArmed =>
      case DelayTripInProgress =>
    }
  }

  /**
    Every field lies in bytes 2-8 but never in byte 6, distinct fields occupy
    distinct bits, and every bit of bytes 2-5 and 7-8 belongs to a field (the
    `m`-th declared field sits at bit `m % 8` of byte `2 + m / 8`, or of byte
    `3 + m / 8` once byte 6 has been passed).
  */
  lemma PartStatusLayout()
    ensures forall f :: 2 <= PartFlagByte(f) < PartStatusSize && PartFlagByte(f) != LastUserByte && PartFlagBit(f) < 8
    ensures forall f, g :: PartFlagByte(f) == PartFlagByte(g) && PartFlagBit(f) == PartFlagBit(g) ==> f == g
    ensures forall m :: 0 <= m < 48 ==>
      PartFlagByte(PartFlagAt(m)) == (if m < 32 then 2 + m / 8 else 3 + m / 8) && PartFlagBit(PartFlagAt(m)) == m % 8
  {
    PartFlagsEnumerate();
    forall f, g | PartFlagByte(f) == PartFlagByte(g) && PartFlagBit(f) == PartFlagBit(g)
      ensures f == g
    {
      assert PartFlagOrdinal(f) == PartFlagOrdinal(g);
    }
  }

  /** Reading a field is testing its byte against the mask `1 << bit`. */
  lemma PartFlagIsMask(report: seq<byte>, f: PartFlag)
    requires |report| == PartStatusSize
    ensures PartFlagByte(f) < PartStatusSize && PartFlagBit(f) < 8
    ensures PartFlagSet(report, f) <==> And(report[PartFlagByte(f)], Pow2(PartFlagBit(f))) != 0
  {
    BitIsMask(report[PartFlagByte(f)], PartFlagBit(f));
  }

  /** `armed` is bit 6 of byte 2 and `siren_on` is bit 1 of byte 3. */
  lemma PartArmedAndSirenBits(report: seq<byte>)
    requires |report| == PartStatusSize
    ensures PartFlagSet(report, PartFlag.Armed) <==> And(report[2], 0x40) != 0
    ensures PartFlagSet(report, PartFlag.SirenOn) <==> And(report[3], 0x02) != 0
  {
    assert Pow2(1) == 2 && Pow2(6) == 0x40;
    assert PartFlagOrdinal(PartFlag.Armed) == 6 && PartFlagOrdinal(PartFlag.SirenOn) == 9;
    PartFlagIsMask(report, PartFlag.Armed);
    PartFlagIsMask(report, PartFlag.SirenOn);
  }

  /** Assigning one field of a partition-status report: that field reads back, nothing else changes. */
  function WithPartFlag(report: seq<byte>, f: PartFlag, v: bool): (r: seq<byte>)
    requires |report| == PartStatusSize
    ensures |r| == PartStatusSize
    ensures PartFlagSet(r, f) == v
    ensures forall g :: g != f ==> PartFlagSet(r, g) == PartFlagSet(report, g)
    ensures r[0] == report[0] && PartNumber(r) == PartNumber(report)
    ensures LastUserNumber(r) == LastUserNumber(report)
  {
    PartFlagUpdateKeepsOthers(report, f, v);
    report[PartFlagByte(f) := SetBit(report[PartFlagByte(f)], PartFlagBit(f), v)]
  }

  /** Setting the bit of one field of a partition-status report leaves every other field as it was. */
  lemma PartFlagUpdateKeepsOthers(report: seq<byte>, f: PartFlag, v: bool)
    requires |report| == PartStatusSize
    ensures 2 <= PartFlagByte(f) < PartStatusSize && PartFlagBit(f) < 8
    ensures var r := report[PartFlagByte(f) := SetBit(report[PartFlagByte(f)], PartFlagBit(f), v)];
      forall g :: g != f ==> PartFlagSet(r, g) == PartFlagSet(report, g)
  {
    PartStatusLayout();
    var r := report[PartFlagByte(f) := SetBit(report[PartFlagByte(f)], PartFlagBit(f), v)];
    forall g | g != f
      ensures PartFlagSet(r, g) == PartFlagSet(report, g)
    {
      if PartFlagByte(g) == PartFlagByte(f) {
        assert PartFlagBit(g) != PartFlagBit(f);
      }
    }
  }
}
