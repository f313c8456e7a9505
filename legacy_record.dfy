/** The earlier record decoder, which still ships beside the complete one. It
    decodes five of the fourteen record types, the same way the complete
    decoder does, and refuses the others with a message naming the type. Its
    system-call arm collects the arguments with an explicit loop. */
module LegacyRecords {
  import opened Bytes
  import opened Fmt
  import opened Errors
  import H = Headers
  import R = Records

  /** The legacy record: the types it does not decode have no fields. */
  datatype Record =
    | Drop
    | SystemCall(number: u16, args: seq<u64>)
    | SystemCallReturn(code: u16, eosys: u16, error: u32, retval: u64)
    | Namei(path: seq<u8>)
    | GenericIO(fd: i32, rw: R.IODir, data: seq<u8>)
    | Signal
    | ContextSwitch
    | UserData
    | Struct
    | Sysctl
    | ProcessCreation(flags: u32)
    | ProcessDestruction
    | CapabilityFailure
    | PageFault
    | PageFaultEnd

  /** The record types this decoder handles. */
  predicate Handled(t: H.RecordType)
  {
    t == H.SystemCall || t == H.SystemCallReturn || t == H.Namei
    || t == H.GenericIO || t == H.ProcessCreation
  }

  /** The legacy form of a record of a handled type. */
  function FromComplete(rec: R.Record): Record
  {
    match rec
    case SystemCall(n, args) => SystemCall(n, args)
    case SystemCallReturn(c, e, err, v) => SystemCallReturn(c, e, err, v)
    case Namei(p) => Namei(p)
    case GenericIO(fd, rw, d) => GenericIO(fd, rw, d)
    case ProcessCreation(f) => ProcessCreation(f)
    case _ => Drop
  }

  function FromCompleteOutcome(o: Outcome<Result<R.Record>>): Outcome<Result<Record>>
  {
    match o
    case Faulted(f) => Faulted(f)
    case Returned(Err(e)) => Returned(Err(e))
    case Returned(Ok(rec)) => Returned(Ok(FromComplete(rec)))
  }

  /** The refusal of a type this decoder does not handle. */
  function UnknownType(t: H.RecordType, data: seq<u8>): (e: Error)
    ensures e.Message?
    ensures e.text == "Unknown data of type " + t.Name() + ": " + DebugBytes(data)
  {
    Msg("Unknown data of type " + t.Name() + ": " + DebugBytes(data))
  }

  /** Legacy `Record::parse`: on the handled types it does what the complete
      decoder does; on the others it returns the unknown-type message. */
  method Parse(order: ByteOrder, data: seq<u8>, t: H.RecordType) returns (r: Outcome<Result<Record>>)
    ensures Handled(t) ==> r == FromCompleteOutcome(R.Parse(order, data, t))
    ensures !Handled(t) ==> r == Returned(Err(UnknownType(t, data)))
  {
    match t {
      case SystemCall =>
        assert R.Parse(order, data, t) == R.ParseSystemCall(order, data);
        r := ParseSystemCall(order, data);
      case SystemCallReturn =>
        assert R.Parse(order, data, t) == R.ParseSystemCallReturn(order, data);
        r := FromCompleteOutcome(R.ParseSystemCallReturn(order, data));
      case Namei =>
        assert R.Parse(order, data, t) == R.ParseNamei(data);
        r := FromCompleteOutcome(R.ParseNamei(data));
      case GenericIO =>
        assert R.Parse(order, data, t) == R.ParseGenericIO(order, data);
        r := FromCompleteOutcome(R.ParseGenericIO(order, data));
      case ProcessCreation =>
        assert R.Parse(order, data, t) == R.ParseProcessCreation(data);
        r := FromCompleteOutcome(R.ParseProcessCreation(data));
      case _ =>
        r := Returned(Err(UnknownType(t, data)));
    }
  }

  /** The system-call arm: the same checks as the complete decoder, then one
      argument read per loop turn from its 8-byte slot. */
  method ParseSystemCall(order: ByteOrder, data: seq<u8>) returns (r: Outcome<Result<Record>>)
    ensures r == FromCompleteOutcome(R.ParseSystemCall(order, data))
  {
    if |data| < 4 {
      return Returned(Err(BadValueOf("2*u16", Preview(data))));
    }
    var code := ReadU16(order, data[0..2]);
    var numArgs := ReadU16(order, data[2..4]);
    if |data| < 8 {
      return Faulted(IndexPanic);
    }
    var argData := data[8..];
    if |argData| != 8 * (numArgs as int) {
      return Returned(Err(BadValueOf(Dec(numArgs) + " 8B arguments", Preview(argData))));
    }
    var args: seq<u64> := [];
    var i: nat := 0;
    while i < numArgs
      invariant 0 <= i <= numArgs
      invariant |args| == i
      invariant forall j :: 0 <= j < i ==> args[j] == ReadU64(order, argData[8 * j..8 * j + 8])
    {
      var start := 8 * i;
      args := args + [ReadU64(order, argData[start..start + 8])];
      i := i + 1;
    }
    assert args == ReadU64s(order, argData);
    r := Returned(Ok(SystemCall(code, args)));
  }
}
