/** The record header (`struct ktr_header`) and the record-type table.

    The header is 56 bytes in the writer's native order (not the session
    order). On a 64-bit target its C layout places the fields at:

      ktr_len  u32        0..4
      ktr_type u16        4..6    (then 2 bytes of padding)
      ktr_pid  u32        8..12
      ktr_comm [u8; 20]  12..32   (MAXCOMLEN + 1)
      tv_sec   i64       32..40
      tv_usec  i64       40..48
      ktr_tid  i64       48..56
*/
module Headers {
  import opened Bytes
  import opened Fmt
  import opened Errors
  import Utf8

  const HeaderSize: nat := 56
  const LengthAt: nat := 0
  const TypeAt: nat := 4
  const PidAt: nat := 8
  const CommAt: nat := 12
  const CommSize: nat := 20
  const SecAt: nat := 32
  const UsecAt: nat := 40
  const TidAt: nat := 48

  /** Types of trace records, with the codes 1 to 14 in declaration order. */
  datatype RecordType =
    | SystemCall | SystemCallReturn | Namei | GenericIO | Signal | ContextSwitch
    | UserData | Struct | Sysctl | ProcessCreation | ProcessDestruction
    | CapabilityFailure | PageFault | PageFaultEnd
  {
    /** The discriminant: SystemCall = 1, then consecutive. */
    function Code(): (c: u16)
      ensures 1 <= c <= 14
    {
      match this
      case SystemCall => 1
      case SystemCallReturn => 2
      case Namei => 3
      case GenericIO => 4
      case Signal => 5
      case ContextSwitch => 6
      case UserData => 7
      case Struct => 8
      case Sysctl => 9
      case ProcessCreation => 10
      case ProcessDestruction => 11
      case CapabilityFailure => 12
      case PageFault => 13
      case PageFaultEnd => 14
    }

    /** The `Display` text: the variant's own identifier. */
    function Name(): (n: string)
      ensures |n| >= 5 && 'A' <= n[0] <= 'Z'
    {
      match this
      case SystemCall => "SystemCall"
      case SystemCallReturn => "SystemCallReturn"
      case Namei => "Namei"
      case GenericIO => "GenericIO"
      case Signal => "Signal"
      case ContextSwitch => "ContextSwitch"
      case UserData => "UserData"
      case Struct => "Struct"
      case Sysctl => "Sysctl"
      case ProcessCreation => "ProcessCreation"
      case ProcessDestruction => "ProcessDestruction"
      case CapabilityFailure => "CapabilityFailure"
      case PageFault => "PageFault"
      case PageFaultEnd => "PageFaultEnd"
    }
  }

  /** Different types display differently, so the legacy refusal names the type. */
  lemma NameInjective(t: RecordType, u: RecordType)
    ensures t.Name() == u.Name() ==> t == u
  {
  }

  /** `RecordType::from_u16`: accepts exactly the codes 1 to 14. */
  function FromU16(v: u16): (r: Result<RecordType>)
    ensures r.Ok? <==> 1 <= v <= 14
    ensures r.Ok? ==> r.value.Code() == v
    ensures r.Err? ==> r.error == BadValue("ktr_type", Dec(v))
  {
    match v
    case 1 => Ok(SystemCall)
    case 2 => Ok(SystemCallReturn)
    case 3 => Ok(Namei)
    case 4 => Ok(GenericIO)
    case 5 => Ok(Signal)
    case 6 => Ok(ContextSwitch)
    case 7 => Ok(UserData)
    case 8 => Ok(Struct)
    case 9 => Ok(Sysctl)
    case 10 => Ok(ProcessCreation)
    case 11 => Ok(ProcessDestruction)
    case 12 => Ok(CapabilityFailure)
    case 13 => Ok(PageFault)
    case 14 => Ok(PageFaultEnd)
    case _ => Err(BadValueOf("ktr_type", Dec(v)))
  }

  /** Each type's code maps back to that type. */
  lemma FromU16OfCode(t: RecordType)
    ensures FromU16(t.Code()) == Ok(t)
  {
    match t
    case SystemCall =>
    case SystemCallReturn =>
    case Namei =>
    case GenericIO =>
    case Signal =>
    case ContextSwitch =>
    case UserData =>
    case Struct =>
    case Sysctl =>
    case ProcessCreation =>
    case ProcessDestruction =>
    case CapabilityFailure =>
    case PageFault =>
    case PageFaultEnd =>
  }

  /** A rejected code is named in decimal, so it can be read back from the error. */
  lemma RejectedCodeIsNamed(v: u16)
    requires v == 0 || v > 14
    ensures FromU16(v).Err? && FromU16(v).error.expected == "ktr_type"
    ensures ParseDec(FromU16(v).error.got) == v
  {
    DecRoundTrip(v);
  }

  datatype TimeVal = TimeVal(tvSec: i64, tvUsec: i64)

  datatype Header = Header(
    length: u64,
    recordType: RecordType,
    pid: u32,
    command: seq<u8>,
    timestamp: TimeVal,
    tid: u64)

  /** The bytes `CStr::from_ptr` takes, starting at the command field: up to
      the first NUL. The scan is not bounded by the 20-byte field; it runs on
      through the timestamp and thread id, and leaving the 56-byte buffer
      is reported as a fault. */
  function CommandScan(buffer: seq<u8>): (r: Outcome<seq<u8>>)
    requires |buffer| == HeaderSize
    ensures r.Faulted? <==> 0 !in buffer[CommAt..]
    ensures r.Returned? ==>
      && CommAt + |r.value| < HeaderSize
      && r.value == buffer[CommAt..CommAt + |r.value|]
      && buffer[CommAt + |r.value|] == 0
      && 0 !in r.value
  {
    var rest := buffer[CommAt..];
    var k := FirstZero(rest);
    if k == |rest| then Faulted(CommandOverrun) else Returned(rest[..k])
  }

  /** `Header::parse`. The C string scan happens first; then the type code is
      checked, and only after it the command text. */
  function Parse(buffer: seq<u8>): (r: Outcome<Result<Header>>)
    requires |buffer| == HeaderSize
    ensures r.Faulted? <==> 0 !in buffer[CommAt..]
    ensures r.Faulted? ==> r.fault == CommandOverrun
    ensures r.Returned? && r.value.Err? ==>
      r.value.error == BadValue("ktr_type", Dec(ReadU16(Native, buffer[TypeAt..TypeAt + 2])))
      || r.value.error == Message("invalid 'command' in ktrace record header")
    ensures r.Returned? && r.value.Ok? ==>
      r.value.value.recordType.Code() == ReadU16(Native, buffer[TypeAt..TypeAt + 2])
  {
    match CommandScan(buffer)
    case Faulted(f) => Faulted(f)
    case Returned(comm) =>
      match FromU16(ReadU16(Native, buffer[TypeAt..TypeAt + 2]))
      case Err(e) => Returned(Err(e))
      case Ok(t) =>
        if !Utf8.Valid(comm) then
          Returned(Err(Msg("invalid 'command' in ktrace record header")))
        else
          Returned(Ok(Header(
            length := ReadU32(Native, buffer[LengthAt..LengthAt + 4]),
            recordType := t,
            pid := ReadU32(Native, buffer[PidAt..PidAt + 4]),
            command := comm,
            timestamp := TimeVal(ReadI64(Native, buffer[SecAt..SecAt + 8]),
                                 ReadI64(Native, buffer[UsecAt..UsecAt + 8])),
            tid := I64AsUsize(ReadI64(Native, buffer[TidAt..TidAt + 8])))))
  }

  /** What a successfully decoded header says about the 56 bytes it came from. */
  lemma ParsedFields(buffer: seq<u8>)
    requires |buffer| == HeaderSize
    requires Parse(buffer).Returned? && Parse(buffer).value.Ok?
    ensures var h := Parse(buffer).value.value;
      && h.length == ReadU32(Native, buffer[0..4])
      && h.recordType.Code() == ReadU16(Native, buffer[4..6])
      && h.pid == ReadU32(Native, buffer[8..12])
      && 12 + |h.command| < 56
      && h.command == buffer[12..12 + |h.command|]
      && buffer[12 + |h.command|] == 0
      && 0 !in h.command
      && Utf8.Valid(h.command)
      && h.timestamp.tvSec == ReadI64(Native, buffer[32..40])
      && h.timestamp.tvUsec == ReadI64(Native, buffer[40..48])
      && h.tid == ReadU64(Native, buffer[48..56])
  {
    ReadI64AsUsize(Native, buffer[48..56]);
  }

  /** A NUL within the 20-byte command field keeps the command inside it. */
  lemma CommandWithinField(buffer: seq<u8>)
    requires |buffer| == HeaderSize
    requires 0 in buffer[CommAt..CommAt + CommSize]
    ensures CommandScan(buffer).Returned?
    ensures |CommandScan(buffer).value| < CommSize
  {
    var rest := buffer[CommAt..];
    var k := FirstZero(rest);
    var i :| 0 <= i < CommSize && buffer[CommAt..CommAt + CommSize][i] == 0;
    assert rest[i] == 0;
  }

  /** An invalid type code is reported even when the command text is also invalid. */
  lemma TypeCheckedBeforeCommand(buffer: seq<u8>)
    requires |buffer| == HeaderSize
    requires 0 in buffer[CommAt..]
    requires FromU16(ReadU16(Native, buffer[4..6])).Err?
    ensures Parse(buffer) == Returned(Err(BadValue("ktr_type", Dec(ReadU16(Native, buffer[4..6])))))
  {
  }

  /** A command that is not UTF-8 fails with a `Message`, not a `UTF8` error. */
  lemma InvalidCommand(buffer: seq<u8>)
    requires |buffer| == HeaderSize
    requires CommandScan(buffer).Returned?
    requires FromU16(ReadU16(Native, buffer[4..6])).Ok?
    requires !Utf8.Valid(CommandScan(buffer).value)
    ensures Parse(buffer) == Returned(Err(Message("invalid 'command' in ktrace record header")))
  {
  }

  /** A header decodes exactly when a NUL follows the command's start, the
      type code is between 1 and 14 and the command text is UTF-8. */
  lemma ParseSucceeds(buffer: seq<u8>)
    requires |buffer| == HeaderSize
    ensures Parse(buffer).Returned? && Parse(buffer).value.Ok? <==>
      && 0 in buffer[CommAt..]
      && FromU16(ReadU16(Native, buffer[TypeAt..TypeAt + 2])).Ok?
      && Utf8.Valid(CommandScan(buffer).value)
  {
  }

  /** The two padding bytes after the type code play no part in decoding. */
  lemma PaddingIgnored(buffer: seq<u8>, padding: seq<u8>)
    requires |buffer| == HeaderSize && |padding| == 2
    ensures var other := buffer[..6] + padding + buffer[8..];
      |other| == HeaderSize && Parse(other) == Parse(buffer)
  {
    var other := buffer[..6] + padding + buffer[8..];
    assert other[CommAt..] == buffer[CommAt..];
    assert other[TypeAt..TypeAt + 2] == buffer[TypeAt..TypeAt + 2];
    assert other[LengthAt..LengthAt + 4] == buffer[LengthAt..LengthAt + 4];
    assert other[PidAt..PidAt + 4] == buffer[PidAt..PidAt + 4];
    assert other[SecAt..SecAt + 8] == buffer[SecAt..SecAt + 8];
    assert other[UsecAt..UsecAt + 8] == buffer[UsecAt..UsecAt + 8];
    assert other[TidAt..TidAt + 8] == buffer[TidAt..TidAt + 8];
  }

  /** The raw C header, as the kernel writes it. */
  datatype RawHeader = RawHeader(
    ktrLen: u32, ktrType: u16, ktrPid: u32, ktrComm: seq<u8>,
    tvSec: i64, tvUsec: i64, ktrTid: i64)

  /** The 56 bytes of a raw header at the offsets above, padding zeroed. */
  function Layout(raw: RawHeader): (buffer: seq<u8>)
    requires |raw.ktrComm| == CommSize
    ensures |buffer| == HeaderSize
  {
    Pow256Widths();
    ToBytes(Native, raw.ktrLen, 4) + ToBytes(Native, raw.ktrType, 2) + [0, 0]
    + ToBytes(Native, raw.ktrPid, 4) + raw.ktrComm
    + SignedBytes(Native, raw.tvSec, 8) + SignedBytes(Native, raw.tvUsec, 8)
    + SignedBytes(Native, raw.ktrTid, 8)
  }

  /** Decoding a laid-out header whose type code is valid and whose command
      field holds NUL-terminated UTF-8 gives back every field: the command up
      to its terminator, the thread id reinterpreted as unsigned. */
  lemma LayoutRoundTrip(raw: RawHeader)
    requires |raw.ktrComm| == CommSize
    requires 1 <= raw.ktrType <= 14
    requires 0 in raw.ktrComm
    requires Utf8.Valid(raw.ktrComm[..FirstZero(raw.ktrComm)])
    ensures Parse(Layout(raw)) == Returned(Ok(Header(
      length := raw.ktrLen,
      recordType := FromU16(raw.ktrType).value,
      pid := raw.ktrPid,
      command := raw.ktrComm[..FirstZero(raw.ktrComm)],
      timestamp := TimeVal(raw.tvSec, raw.tvUsec),
      tid := I64AsUsize(raw.ktrTid))))
  {
    var b := Layout(raw);
    LayoutFields(raw);
    var k := FirstZero(raw.ktrComm);
    assert CommandScan(b) == Returned(raw.ktrComm[..k]);
  }

  /** The integer fields of a laid-out header read back, and the command
      scan stops at the field's own terminator. */
  lemma LayoutFields(raw: RawHeader)
    requires |raw.ktrComm| == CommSize
    requires 0 in raw.ktrComm
    ensures var b := Layout(raw);
      && ReadU32(Native, b[LengthAt..LengthAt + 4]) == raw.ktrLen
      && ReadU16(Native, b[TypeAt..TypeAt + 2]) == raw.ktrType
      && ReadU32(Native, b[PidAt..PidAt + 4]) == raw.ktrPid
      && ReadI64(Native, b[SecAt..SecAt + 8]) == raw.tvSec
      && ReadI64(Native, b[UsecAt..UsecAt + 8]) == raw.tvUsec
      && ReadI64(Native, b[TidAt..TidAt + 8]) == raw.ktrTid
      && FirstZero(b[CommAt..]) == FirstZero(raw.ktrComm)
      && b[CommAt..][..FirstZero(raw.ktrComm)] == raw.ktrComm[..FirstZero(raw.ktrComm)]
  {
    Pow256Widths();
    var b := Layout(raw);
    LayoutSlices(raw);
    ValueOfBytes(Native, raw.ktrLen, 4);
    ValueOfBytes(Native, raw.ktrType, 2);
    ValueOfBytes(Native, raw.ktrPid, 4);
    ReadI64OfSignedBytes(Native, raw.tvSec);
    ReadI64OfSignedBytes(Native, raw.tvUsec);
    ReadI64OfSignedBytes(Native, raw.ktrTid);
    FirstZeroOfAppend(raw.ktrComm, b[32..]);
  }

  /** Where each field of a raw header lands in its layout. */
  lemma LayoutSlices(raw: RawHeader)
    requires |raw.ktrComm| == CommSize
    ensures Pow256(2) == 0x1_0000 && Pow256(4) == 0x1_0000_0000
    ensures var b := Layout(raw);
      && b[0..4][..4] == ToBytes(Native, raw.ktrLen, 4)
      && b[4..6][..2] == ToBytes(Native, raw.ktrType, 2)
      && b[8..12][..4] == ToBytes(Native, raw.ktrPid, 4)
      && b[CommAt..] == raw.ktrComm + b[32..]
      && b[32..40] == SignedBytes(Native, raw.tvSec, 8)
      && b[40..48] == SignedBytes(Native, raw.tvUsec, 8)
      && b[48..56] == SignedBytes(Native, raw.ktrTid, 8)
  {
    Pow256Widths();
    var b := Layout(raw);
    assert b[0..4] == ToBytes(Native, raw.ktrLen, 4);
    assert b[4..6] == ToBytes(Native, raw.ktrType, 2);
    assert b[8..12] == ToBytes(Native, raw.ktrPid, 4);
    assert b[12..32] == raw.ktrComm;
    assert b[CommAt..] == b[12..32] + b[32..];
    assert b[32..40] == SignedBytes(Native, raw.tvSec, 8);
    assert b[40..48] == SignedBytes(Native, raw.tvUsec, 8);
    assert b[48..56] == SignedBytes(Native, raw.ktrTid, 8);
  }

  lemma {:induction false} FirstZeroOfAppend(s: seq<u8>, t: seq<u8>)
    requires 0 in s
    ensures FirstZero(s + t) == FirstZero(s)
  {
    if s[0] != 0 {
      assert (s + t)[1..] == s[1..] + t;
      FirstZeroOfAppend(s[1..], t);
    }
  }

  /** Re-encoding the decoded length, pid and thread id gives back their bytes. */
  lemma ParsedFieldsReencode(buffer: seq<u8>)
    requires |buffer| == HeaderSize
    requires Parse(buffer).Returned? && Parse(buffer).value.Ok?
    ensures var h := Parse(buffer).value.value;
      && Pow256(4) == 0x1_0000_0000 && Pow256(8) == 0x1_0000_0000_0000_0000
      && ToBytes(Native, h.length, 4) == buffer[0..4]
      && ToBytes(Native, h.pid, 4) == buffer[8..12]
      && ToBytes(Native, h.tid, 8) == buffer[48..56]
  {
    Pow256Widths();
    ParsedFields(buffer);
    BytesOfValue(Native, buffer[0..4]);
    BytesOfValue(Native, buffer[8..12]);
    BytesOfValue(Native, buffer[48..56]);
    assert buffer[0..4][..4] == buffer[0..4];
    assert buffer[8..12][..4] == buffer[8..12];
    assert buffer[48..56][..8] == buffer[48..56];
  }
}
