/** The body of a capability-failure record (`struct ktr_cap_fail`) and the
    capability rights it carries. Each rights mask is kept as its raw 8 bytes. */
module Capabilities {
  import opened Bytes
  import opened Fmt
  import opened Errors

  /** Rights associated with a capability: a version derived from the size of
      the payload, and a sequence of 8-byte masks. */
  datatype CapabilityRights = CapabilityRights(version: nat, masks: seq<seq<u8>>)

  datatype CapFail =
    | NotCapable(needed: CapabilityRights, held: CapabilityRights)
    | Increase
    | Syscall
    | Lookup

  /** `CapabilityRights::parse`: a multiple of 8 bytes, cut into masks. The
      byte order plays no part. */
  function ParseRights(data: seq<u8>, version: nat): (r: Result<CapabilityRights>)
    ensures r.Ok? <==> |data| % 8 == 0
    ensures r.Err? ==> r.error == BadValue("cap_rights_t", Dec(|data|) + "B: " + DebugBytes(data))
    ensures r.Ok? ==>
      && r.value.version == version
      && |r.value.masks| == |data| / 8
      && (forall i :: 0 <= i < |r.value.masks| ==> r.value.masks[i] == data[8 * i..8 * i + 8])
      && Flatten(r.value.masks) == data
  {
    if |data| % 8 != 0 then
      Err(BadValueOf("cap_rights_t", Dec(|data|) + "B: " + DebugBytes(data)))
    else
      ChunksExact(data, 8, |data| / 8);
      FlattenChunks(data, 8);
      Ok(CapabilityRights(version, Chunks(data, 8)))
  }

  /** `CapFail::parse`: a 4-byte discriminant, then for NotCapable 4 bytes of
      padding and two equal halves, `held` first and `needed` second. */
  function ParseCapFail(order: ByteOrder, data: seq<u8>): (r: Result<CapFail>)
    ensures |data| < 20 ==>
      r == Err(BadValue("enum ktr_cap_fail_type + two cap_rights_t", Preview(data)))
    ensures |data| >= 20 ==>
      var d := ReadU32(order, data[0..4]);
      && (d == 0 && |data[8..]| % 16 != 0 ==>
            r == Err(BadValue("two cap_rights_t", Preview(data[8..]))))
      && (d == 0 && |data[8..]| % 16 == 0 ==> r.Ok? && r.value.NotCapable?)
      && (d == 1 ==> r == Ok(Increase))
      && (d == 2 ==> r == Ok(Syscall))
      && (d == 3 ==> r == Ok(Lookup))
      && (d > 3 ==> r == Err(BadValue("ktr_cap_fail_type (integer 0-3)", Dec(d))))
  {
    if |data| < 20 then
      Err(BadValueOf("enum ktr_cap_fail_type + two cap_rights_t", Preview(data)))
    else
      match ReadU32(order, data[0..4])
      case 0 =>
        var capData := data[8..];
        if |capData| % 16 != 0 then
          Err(BadValueOf("two cap_rights_t", Preview(capData)))
        else
          var size := |capData| / 2;
          var version := |capData| / 8 - 2;
          Ok(NotCapable(
            held := CapabilityRights(version, Chunks(capData[..size], 8)),
            needed := CapabilityRights(version, Chunks(capData[size..], 8))))
      case 1 => Ok(Increase)
      case 2 => Ok(Syscall)
      case 3 => Ok(Lookup)
      case x => Err(BadValueOf("ktr_cap_fail_type (integer 0-3)", Dec(x)))
  }

  /** For NotCapable, the two halves of the payload after the padding become
      `held` and `needed`: each has one 8-byte mask per 8 bytes of its half,
      is what `ParseRights` makes of that half, and the masks of both put back
      together give the payload. Both carry the version |payload|/8 - 2, which
      the length checks keep from underflowing; with n masks per half it is 2n - 2. */
  lemma NotCapableHalves(order: ByteOrder, data: seq<u8>)
    requires |data| >= 20
    requires ReadU32(order, data[0..4]) == 0
    requires |data[8..]| % 16 == 0
    ensures var r := ParseCapFail(order, data);
      var capData := data[8..];
      var n := |capData| / 16;
      && r.Ok? && r.value.NotCapable?
      && var held := r.value.held;
      && var needed := r.value.needed;
      && |capData| >= 16
      && held.version == needed.version == |capData| / 8 - 2 == 2 * n - 2
      && |held.masks| == n && |needed.masks| == n
      && Ok(held) == ParseRights(capData[..8 * n], held.version)
      && Ok(needed) == ParseRights(capData[8 * n..], needed.version)
      && Flatten(held.masks) + Flatten(needed.masks) == capData
  {
    var capData := data[8..];
    var n := |capData| / 16;
    HalfSizes(|capData|);
    var r := ParseCapFail(order, data);
    var held, needed := r.value.held, r.value.needed;
    var first, second := capData[..8 * n], capData[8 * n..];
    assert held == CapabilityRights(|capData| / 8 - 2, Chunks(first, 8));
    assert needed == CapabilityRights(|capData| / 8 - 2, Chunks(second, 8));
    assert ParseRights(first, held.version).value == held;
    assert ParseRights(second, needed.version).value == needed;
    assert first + second == capData;
  }

  /** The arithmetic of cutting a payload of 16n bytes into halves of n masks. */
  lemma HalfSizes(len: nat)
    requires len % 16 == 0
    ensures len / 2 == 8 * (len / 16)
    ensures len / 8 == 2 * (len / 16)
    ensures (len / 2) % 8 == 0 && (len / 2) / 8 == len / 16
    ensures (len - len / 2) % 8 == 0 && (len - len / 2) / 8 == len / 16
  {
  }

  /** A 24-byte NotCapable body carries 16 bytes of payload: one mask each
      for `held` and `needed`, both at version 0. */
  lemma NotCapableOneMaskEach(order: ByteOrder, data: seq<u8>)
    requires |data| == 24 && ReadU32(order, data[0..4]) == 0
    ensures var r := ParseCapFail(order, data);
      && r.Ok? && r.value.NotCapable?
      && r.value.held == CapabilityRights(0, [data[8..16]])
      && r.value.needed == CapabilityRights(0, [data[16..24]])
  {
    NotCapableHalves(order, data);
    var capData := data[8..];
    assert capData[..8] == data[8..16] && capData[8..] == data[16..24];
  }
}
