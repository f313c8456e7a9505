/** Record bodies and the dispatcher that decodes a body by its record type:
    one exhaustive match over the fourteen types. Multi-byte fields are read in
    the session byte order, except the process-creation flags, which are read
    in the native order. */
module Records {
  import opened Bytes
  import opened Fmt
  import opened Errors
  import H = Headers
  import Utf8
  import Capabilities

  /** Direction of a generic I/O transfer (`uio_rw`). */
  datatype IODir = Read | Write

  datatype Record =
    | Drop
    | SystemCall(number: u16, args: seq<u64>)
    | SystemCallReturn(code: u16, eosys: u16, error: u32, retval: u64)
    | Namei(path: seq<u8>)
    | GenericIO(fd: i32, rw: IODir, data: seq<u8>)
    | Signal(signo: i32, handler: u64, signalCode: i32, mask: seq<u32>)
    | ContextSwitch(out: bool, user: bool, message: seq<u8>)
    | UserData(data: seq<u8>)
    | Struct(name: seq<u8>, content: seq<u8>)
    | Sysctl(mib: seq<u8>)
    | ProcessCreation(flags: u32)
    | ProcessDestruction
    | CapabilityFailure(failure: Capabilities.CapFail)
    | PageFault(virtualAddress: u64, faultType: u32)
    | PageFaultEnd(result: u32)
  {
    /** The record type a decoded record belongs to (none for Drop, which
        stands for records the kernel lost and is never decoded). */
    predicate OfType(t: H.RecordType)
    {
      match this
      case Drop => false
      case SystemCall(_, _) => t == H.SystemCall
      case SystemCallReturn(_, _, _, _) => t == H.SystemCallReturn
      case Namei(_) => t == H.Namei
      case GenericIO(_, _, _) => t == H.GenericIO
      case Signal(_, _, _, _) => t == H.Signal
      case ContextSwitch(_, _, _) => t == H.ContextSwitch
      case UserData(_) => t == H.UserData
      case Struct(_, _) => t == H.Struct
      case Sysctl(_) => t == H.Sysctl
      case ProcessCreation(_) => t == H.ProcessCreation
      case ProcessDestruction => t == H.ProcessDestruction
      case CapabilityFailure(_) => t == H.CapabilityFailure
      case PageFault(_, _) => t == H.PageFault
      case PageFaultEnd(_) => t == H.PageFaultEnd
    }
  }

  /** `Record::parse`. */
  function Parse(order: ByteOrder, data: seq<u8>, t: H.RecordType): (r: Outcome<Result<Record>>)
    ensures r.Faulted? ==> r.fault == IndexPanic
    ensures r.Faulted? ==> t == H.SystemCall || t == H.Signal || t == H.ContextSwitch
    ensures r.Returned? && r.value.Ok? ==> r.value.value.OfType(t)
    ensures t == H.UserData ==> r == Returned(Ok(UserData(data)))
    ensures t == H.CapabilityFailure ==>
      var c := Capabilities.ParseCapFail(order, data);
      && (c.Ok? ==> r == Returned(Ok(CapabilityFailure(c.value))))
      && (c.Err? ==> r == Returned(Err(c.error)))
  {
    match t
    case SystemCall => ParseSystemCall(order, data)
    case SystemCallReturn => ParseSystemCallReturn(order, data)
    case Namei => ParseNamei(data)
    case GenericIO => ParseGenericIO(order, data)
    case Signal => ParseSignal(order, data)
    case ContextSwitch => ParseContextSwitch(order, data)
    case UserData => Returned(Ok(UserData(data)))
    case Struct => ParseStruct(data)
    case Sysctl => ParseSysctl(data)
    case ProcessCreation => ParseProcessCreation(data)
    case ProcessDestruction => ParseProcessDestruction(data)
    case CapabilityFailure =>
      (match Capabilities.ParseCapFail(order, data)
       case Ok(f) => Returned(Ok(CapabilityFailure(f)))
       case Err(e) => Returned(Err(e)))
    case PageFault => ParsePageFault(order, data)
    case PageFaultEnd => ParsePageFaultEnd(order, data)
  }

  /** A system call: u16 number, u16 argument count, 4 bytes of padding, then
      exactly that many u64 arguments. Only 4 bytes are checked before the
      padding is skipped, so a body of 4 to 7 bytes faults. */
  function ParseSystemCall(order: ByteOrder, data: seq<u8>): (r: Outcome<Result<Record>>)
    ensures |data| < 4 ==> r == Returned(Err(BadValue("2*u16", Preview(data))))
    ensures 4 <= |data| < 8 ==> r == Faulted(IndexPanic)
    ensures |data| >= 8 ==>
      var n := ReadU16(order, data[2..4]);
      && r.Returned?
      && (r.value.Ok? <==> |data| == 8 + 8 * n)
      && (r.value.Err? ==> r.value.error == BadValue(Dec(n) + " 8B arguments", Preview(data[8..])))
    ensures r.Returned? && r.value.Ok? ==>
      var rec := r.value.value;
      && rec.SystemCall?
      && rec.number == ReadU16(order, data[0..2])
      && |rec.args| == ReadU16(order, data[2..4])
      && forall i :: 0 <= i < |rec.args| ==>
           16 + 8 * i <= |data| && rec.args[i] == ReadU64(order, data[8 + 8 * i..16 + 8 * i])
  {
    if |data| < 4 then
      Returned(Err(BadValueOf("2*u16", Preview(data))))
    else
      var code := ReadU16(order, data[0..2]);
      var numArgs := ReadU16(order, data[2..4]);
      if |data| < 8 then
        Faulted(IndexPanic)
      else
        var argData := data[8..];
        if |argData| != 8 * numArgs then
          Returned(Err(BadValueOf(Dec(numArgs) + " 8B arguments", Preview(argData))))
        else
          var args := ReadU64s(order, argData);
          assert forall i :: 0 <= i < |args| ==>
            argData[8 * i..8 * i + 8] == data[8 + 8 * i..16 + 8 * i];
          Returned(Ok(SystemCall(number := code, args := args)))
  }

  /** A system call return: exactly 16 bytes, u16 code at 0, u16 eosys at 2,
      u32 error at 4, u64 return value at 8. */
  function ParseSystemCallReturn(order: ByteOrder, data: seq<u8>): (r: Outcome<Result<Record>>)
    ensures r.Returned?
    ensures r.value.Ok? <==> |data| == 16
    ensures r.value.Err? ==> r.value.error == BadValue("16 B", Preview(data))
    ensures r.value.Ok? ==>
      r.value.value == SystemCallReturn(ReadU16(order, data[0..2]), ReadU16(order, data[2..4]),
                                        ReadU32(order, data[4..8]), ReadU64(order, data[8..16]))
  {
    if |data| != 16 then
      Returned(Err(BadValueOf("16 B", Preview(data))))
    else
      Returned(Ok(SystemCallReturn(
        code := ReadU16(order, data[0..2]),
        eosys := ReadU16(order, data[2..4]),
        error := ReadU32(order, data[4..8]),
        retval := ReadU64(order, data[8..16]))))
  }

  /** A path name: the whole body as UTF-8; the only failure is a UTF8 error. */
  function ParseNamei(data: seq<u8>): (r: Outcome<Result<Record>>)
    ensures r.Returned?
    ensures r.value.Ok? <==> Utf8.Valid(data)
    ensures r.value.Ok? ==> r.value.value == Namei(data)
    ensures r.value.Err? ==> r.value.error.UTF8?
  {
    match Utf8.FromUtf8(data)
    case Ok(s) => Returned(Ok(Namei(s)))
    case Err(e) => Returned(Err(e))
  }

  /** Generic I/O: i32 descriptor, u32 direction (0 read, 1 write), then the
      transferred bytes. */
  function ParseGenericIO(order: ByteOrder, data: seq<u8>): (r: Outcome<Result<Record>>)
    ensures r.Returned?
    ensures |data| < 8 ==> r.value == Err(BadValue("2*int", Preview(data)))
    ensures |data| >= 8 ==>
      var dir := ReadU32(order, data[4..8]);
      && (r.value.Ok? <==> dir <= 1)
      && (dir > 1 ==> r.value == Err(BadValue("uio_rw", Dec(dir))))
    ensures r.value.Ok? ==>
      var rec := r.value.value;
      && rec.GenericIO?
      && rec.fd == ReadI32(order, data[0..4])
      && (rec.rw == Read <==> ReadU32(order, data[4..8]) == 0)
      && rec.data == data[8..]
  {
    if |data| < 8 then
      Returned(Err(BadValueOf("2*int", Preview(data))))
    else
      var fd := ReadI32(order, data[0..4]);
      match ReadU32(order, data[4..8])
      case 0 => Returned(Ok(GenericIO(fd, Read, data[8..])))
      case 1 => Returned(Ok(GenericIO(fd, Write, data[8..])))
      case x => Returned(Err(BadValueOf("uio_rw", Dec(x))))
  }

  /** A processed signal: i32 number, 4 bytes of padding, the 8-byte handler
      address (kept as its bits), i32 code, then the mask as u32 words. A
      mask tail that is not a whole number of words makes the last word's
      read fault. */
  function ParseSignal(order: ByteOrder, data: seq<u8>): (r: Outcome<Result<Record>>)
    ensures |data| < 20 ==>
      r == Returned(Err(BadValue("2*int + sig_t + sigset_t + padding", Preview(data))))
    ensures |data| >= 20 ==> (r.Faulted? <==> (|data| - 20) % 4 != 0)
    ensures r.Returned? && r.value.Ok? ==>
      var rec := r.value.value;
      && rec.Signal?
      && rec.signo == ReadI32(order, data[0..4])
      && rec.handler == ReadU64(order, data[8..16])
      && rec.signalCode == ReadI32(order, data[16..20])
      && |rec.mask| == (|data| - 20) / 4
      && forall i :: 0 <= i < |rec.mask| ==>
           24 + 4 * i <= |data| && rec.mask[i] == ReadU32(order, data[20 + 4 * i..24 + 4 * i])
    ensures |data| >= 20 && (|data| - 20) % 4 == 0 ==> r.Returned? && r.value.Ok?
  {
    if |data| < 20 then
      Returned(Err(BadValueOf("2*int + sig_t + sigset_t + padding", Preview(data))))
    else
      var tail := data[20..];
      if |tail| % 4 != 0 then
        Faulted(IndexPanic)
      else
        var mask := ReadU32s(order, tail);
        assert forall i :: 0 <= i < |mask| ==>
          tail[4 * i..4 * i + 4] == data[20 + 4 * i..24 + 4 * i];
        Returned(Ok(Signal(
          signo := ReadI32(order, data[0..4]),
          handler := ReadU64(order, data[8..16]),
          signalCode := ReadI32(order, data[16..20]),
          mask := mask)))
  }

  /** A context switch: two u32 flags, then a UTF-8 message. There is no length
      check, so a body shorter than 8 bytes faults. */
  function ParseContextSwitch(order: ByteOrder, data: seq<u8>): (r: Outcome<Result<Record>>)
    ensures r.Faulted? <==> |data| < 8
    ensures |data| >= 8 ==> (r.value.Ok? <==> Utf8.Valid(data[8..]))
    ensures r.Returned? && r.value.Err? ==> r.value.error.UTF8?
    ensures r.Returned? && r.value.Ok? ==>
      r.value.value == ContextSwitch(ReadU32(order, data[0..4]) != 0,
                                     ReadU32(order, data[4..8]) != 0, data[8..])
  {
    if |data| < 8 then
      Faulted(IndexPanic)
    else
      var out := ReadU32(order, data[0..4]) != 0;
      var user := ReadU32(order, data[4..8]) != 0;
      match Utf8.FromUtf8(data[8..])
      case Ok(message) => Returned(Ok(ContextSwitch(out, user, message)))
      case Err(e) => Returned(Err(e))
  }

  /** A named struct: the name is the UTF-8 text before the first NUL, the
      content everything from that NUL on. */
  function ParseStruct(data: seq<u8>): (r: Outcome<Result<Record>>)
    ensures r.Returned?
    ensures 0 !in data ==> r.value == Err(Message("no NULL byte in struct name"))
    ensures 0 in data ==>
      var nul := FirstZero(data);
      && (r.value.Ok? <==> Utf8.Valid(data[..nul]))
      && (r.value.Err? ==> r.value.error.UTF8?)
    ensures r.value.Ok? ==>
      var rec := r.value.value;
      && rec.Struct?
      && 0 !in rec.name
      && rec.content != [] && rec.content[0] == 0
      && rec.name + rec.content == data
  {
    var nul := FirstZero(data);
    if nul == |data| then
      Returned(Err(Msg("no NULL byte in struct name")))
    else
      match Utf8.FromUtf8(data[..nul])
      case Err(e) => Returned(Err(e))
      case Ok(name) =>
        assert name + data[nul..] == data;
        Returned(Ok(Struct(name, data[nul..])))
  }

  /** A sysctl MIB name: non-empty UTF-8 text. */
  function ParseSysctl(data: seq<u8>): (r: Outcome<Result<Record>>)
    ensures r.Returned?
    ensures |data| == 0 ==> r.value == Err(BadValue("sysctl MIB", "empty string"))
    ensures r.value.Ok? <==> |data| > 0 && Utf8.Valid(data)
    ensures r.value.Ok? ==> r.value.value == Sysctl(data)
    ensures |data| > 0 && r.value.Err? ==> r.value.error.UTF8?
  {
    if |data| == 0 then
      Returned(Err(BadValueOf("sysctl MIB", "empty string")))
    else
      match Utf8.FromUtf8(data)
      case Ok(s) => Returned(Ok(Sysctl(s)))
      case Err(e) => Returned(Err(e))
  }

  /** Process creation: exactly 4 bytes of flags in the native order, whatever
      the session order. */
  function ParseProcessCreation(data: seq<u8>): (r: Outcome<Result<Record>>)
    ensures r.Returned?
    ensures r.value.Ok? <==> |data| == 4
    ensures r.value.Err? ==> r.value.error == BadValue("u32", Preview(data))
    ensures r.value.Ok? ==> r.value.value == ProcessCreation(ReadU32(Native, data))
  {
    if |data| != 4 then
      Returned(Err(BadValueOf("u32", Preview(data))))
    else
      Returned(Ok(ProcessCreation(flags := ReadU32(Native, data))))
  }

  /** Process destruction: the body must be empty. */
  function ParseProcessDestruction(data: seq<u8>): (r: Outcome<Result<Record>>)
    ensures r.Returned?
    ensures r.value.Ok? <==> data == []
    ensures r.value.Err? ==>
      r.value.error == BadValue("no data for process destruction", DebugBytes(data))
  {
    if |data| != 0 then
      Returned(Err(BadValueOf("no data for process destruction", DebugBytes(data))))
    else
      Returned(Ok(ProcessDestruction))
  }

  /** A page fault: u64 virtual address and u32 fault type; any further bytes
      are ignored. */
  function ParsePageFault(order: ByteOrder, data: seq<u8>): (r: Outcome<Result<Record>>)
    ensures r.Returned?
    ensures r.value.Ok? <==> |data| >= 12
    ensures r.value.Err? ==> r.value.error == BadValue("vm_offset_t + int", Preview(data))
    ensures r.value.Ok? ==>
      r.value.value == PageFault(ReadU64(order, data[0..8]), ReadU32(order, data[8..12]))
  {
    if |data| < 12 then
      Returned(Err(BadValueOf("vm_offset_t + int", Preview(data))))
    else
      Returned(Ok(PageFault(
        virtualAddress := ReadU64(order, data[0..8]),
        faultType := ReadU32(order, data[8..12]))))
  }

  /** The end of a page fault: exactly 4 bytes of result. */
  function ParsePageFaultEnd(order: ByteOrder, data: seq<u8>): (r: Outcome<Result<Record>>)
    ensures r.Returned?
    ensures r.value.Ok? <==> |data| == 4
    ensures r.value.Err? ==> r.value.error == BadValue("int", Preview(data))
    ensures r.value.Ok? ==> r.value.value == PageFaultEnd(ReadU32(order, data))
  {
    if |data| != 4 then
      Returned(Err(BadValueOf("int", Preview(data))))
    else
      Returned(Ok(PageFaultEnd(result := ReadU32(order, data))))
  }

  // Encoders for the fixed layouts, used to state what decoding loses and keeps.

  /** The bytes of a system call record, given its four padding bytes. */
  function SystemCallBytes(order: ByteOrder, number: u16, args: seq<u64>, padding: seq<u8>): (s: seq<u8>)
    requires |args| < 0x1_0000 && |padding| == 4
    ensures |s| == 8 + 8 * |args|
  {
    Pow256Widths();
    ToBytes(order, number, 2) + ToBytes(order, |args|, 2) + padding + U64sBytes(order, args)
  }

  /** A system call record decodes back to its number and arguments, whatever
      the padding holds. */
  lemma SystemCallRoundTrip(order: ByteOrder, number: u16, args: seq<u64>, padding: seq<u8>)
    requires |args| < 0x1_0000 && |padding| == 4
    ensures Parse(order, SystemCallBytes(order, number, args, padding), H.SystemCall)
         == Returned(Ok(SystemCall(number, args)))
  {
    Pow256Widths();
    var data := SystemCallBytes(order, number, args, padding);
    var a, b := ToBytes(order, number, 2), ToBytes(order, |args|, 2);
    assert data == a + b + padding + U64sBytes(order, args);
    assert data[0..2] == a && a[..2] == a;
    assert data[2..4] == b && b[..2] == b;
    ValueOfBytes(order, number, 2);
    ValueOfBytes(order, |args|, 2);
    assert data[8..] == U64sBytes(order, args);
    ReadU64sOfBytes(order, args);
  }

  /** Every accepted system call body is the encoding of what was decoded
      from it, with its own padding: only the padding is dropped. */
  lemma SystemCallReencode(order: ByteOrder, data: seq<u8>)
    requires Parse(order, data, H.SystemCall).Returned?
    requires Parse(order, data, H.SystemCall).value.Ok?
    ensures var rec := Parse(order, data, H.SystemCall).value.value;
      && rec.SystemCall? && |rec.args| < 0x1_0000 && |data| >= 8
      && data == SystemCallBytes(order, rec.number, rec.args, data[4..8])
  {
    Pow256Widths();
    var rec := Parse(order, data, H.SystemCall).value.value;
    var argData := data[8..];
    assert rec.args == ReadU64s(order, argData);
    U64sBytesOfRead(order, argData);
    var n0, n1 := data[0..2], data[2..4];
    assert n0[..2] == n0 && n1[..2] == n1;
    BytesOfValue(order, n0);
    BytesOfValue(order, n1);
    assert data == n0 + n1 + data[4..8] + argData;
  }

  /** The bytes of a system call return record. */
  function SystemCallReturnBytes(order: ByteOrder, code: u16, eosys: u16, error: u32, retval: u64): (s: seq<u8>)
    ensures |s| == 16
  {
    Pow256Widths();
    ToBytes(order, code, 2) + ToBytes(order, eosys, 2) + ToBytes(order, error, 4) + ToBytes(order, retval, 8)
  }

  lemma SystemCallReturnRoundTrip(order: ByteOrder, code: u16, eosys: u16, error: u32, retval: u64)
    ensures Parse(order, SystemCallReturnBytes(order, code, eosys, error, retval), H.SystemCallReturn)
         == Returned(Ok(SystemCallReturn(code, eosys, error, retval)))
  {
    Pow256Widths();
    var data := SystemCallReturnBytes(order, code, eosys, error, retval);
    var a, b := ToBytes(order, code, 2), ToBytes(order, eosys, 2);
    var c, d := ToBytes(order, error, 4), ToBytes(order, retval, 8);
    assert data == a + b + c + d;
    assert data[0..2] == a && a[..2] == a;
    assert data[2..4] == b && b[..2] == b;
    assert data[4..8] == c && c[..4] == c;
    assert data[8..16] == d && d[..8] == d;
    ValueOfBytes(order, code, 2);
    ValueOfBytes(order, eosys, 2);
    ValueOfBytes(order, error, 4);
    ValueOfBytes(order, retval, 8);
  }

  /** A system call return body is fully determined by its record. */
  lemma SystemCallReturnReencode(order: ByteOrder, data: seq<u8>)
    requires Parse(order, data, H.SystemCallReturn).Returned?
    requires Parse(order, data, H.SystemCallReturn).value.Ok?
    ensures var rec := Parse(order, data, H.SystemCallReturn).value.value;
      && rec.SystemCallReturn?
      && data == SystemCallReturnBytes(order, rec.code, rec.eosys, rec.error, rec.retval)
  {
    var p0, p1, p2, p3 := data[0..2], data[2..4], data[4..8], data[8..16];
    assert p0[..2] == p0 && p1[..2] == p1 && p2[..4] == p2 && p3[..8] == p3;
    assert Parse(order, data, H.SystemCallReturn) == ParseSystemCallReturn(order, data);
    var rec := ParseSystemCallReturn(order, data).value.value;
    assert rec == SystemCallReturn(ReadU16(order, p0), ReadU16(order, p1), ReadU32(order, p2), ReadU64(order, p3));
    ReadU16Encodes(order, p0);
    ReadU16Encodes(order, p1);
    ReadU32Encodes(order, p2);
    ReadU64Encodes(order, p3);
    assert data == p0 + p1 + p2 + p3;
  }

  /** The `uio_rw` code of a direction. */
  function DirCode(rw: IODir): (c: u32)
    ensures c <= 1
  {
    match rw
    case Read => 0
    case Write => 1
  }

  /** The bytes of a generic I/O record. */
  function GenericIOBytes(order: ByteOrder, fd: i32, rw: IODir, payload: seq<u8>): (s: seq<u8>)
    ensures |s| == 8 + |payload|
  {
    Pow256Widths();
    SignedBytes(order, fd, 4) + ToBytes(order, DirCode(rw), 4) + payload
  }

  lemma GenericIORoundTrip(order: ByteOrder, fd: i32, rw: IODir, payload: seq<u8>)
    ensures Parse(order, GenericIOBytes(order, fd, rw, payload), H.GenericIO)
         == Returned(Ok(GenericIO(fd, rw, payload)))
  {
    Pow256Widths();
    var data := GenericIOBytes(order, fd, rw, payload);
    assert data[0..4] == SignedBytes(order, fd, 4);
    ReadI32OfSignedBytes(order, fd);
    assert data[4..8][..4] == ToBytes(order, DirCode(rw), 4);
    ValueOfBytes(order, DirCode(rw), 4);
    assert data[8..] == payload;
  }

  /** Bytes past the first twelve of a page-fault body play no part. */
  lemma PageFaultIgnoresTail(order: ByteOrder, data: seq<u8>, extra: seq<u8>)
    requires |data| >= 12
    ensures Parse(order, data + extra, H.PageFault) == Parse(order, data, H.PageFault)
  {
    var d := data + extra;
    assert d[0..8] == data[0..8] && d[8..12] == data[8..12];
  }

  /** The body types made of bytes and text alone decode the same way in
      either session order; process-creation flags do too, because they are
      always read in the native order. */
  lemma OrderIndependentTypes(data: seq<u8>, t: H.RecordType)
    requires t in {H.Namei, H.UserData, H.Struct, H.Sysctl, H.ProcessCreation, H.ProcessDestruction}
    ensures Parse(Little, data, t) == Parse(Big, data, t)
  {
  }

  /** On a trace recorded in the other byte order, process-creation flags are
      still read little-endian (the native order): bytes 1, 0, 0, 0 give 1. */
  lemma ProcessCreationReadsNative()
    ensures Parse(Big, [1, 0, 0, 0], H.ProcessCreation) == Returned(Ok(ProcessCreation(1)))
    ensures ReadU32(Big, [1, 0, 0, 0]) == 0x100_0000
  {
    var s: seq<u8> := [1, 0, 0, 0];
    assert s[..4] == s;
    assert s[1..][1..][1..][1..] == [];
    assert s[..3] == [1, 0, 0] && s[..3][..2] == [1, 0] && s[..3][..2][..1] == [1];
    assert BigValue([1]) == 1;
    assert BigValue([1, 0]) == 0x100;
    assert BigValue([1, 0, 0]) == 0x1_0000;
  }
}
