/** The stream-framing loop: a dump is a sequence of 56-byte headers, each
    followed by `length` bytes of body. Headers are read in the native order,
    bodies are decoded in the session order. */
module Ktrace {
  import opened Bytes
  import opened Errors
  import H = Headers
  import R = Records
  import Utf8

  /** One decoded record: its header and the outcome of decoding its body. */
  type Entry = (H.Header, Result<R.Record>)

  /** A byte stream held in memory, consumed from the front. */
  class Reader {
    var remaining: seq<u8>

    constructor (input: seq<u8>)
      ensures remaining == input
    {
      remaining := input;
    }

    /** `read_exact`: the next `n` bytes, or UnexpectedEof when fewer remain,
        in which case what was left is used up. */
    method ReadExact(n: nat) returns (r: Result<seq<u8>>)
      modifies this
      ensures n <= |old(remaining)| ==> r == Ok(old(remaining)[..n]) && remaining == old(remaining)[n..]
      ensures n > |old(remaining)| ==> r == Err(IO(UnexpectedEof)) && remaining == []
    {
      if n <= |remaining| {
        r := Ok(remaining[..n]);
        remaining := remaining[n..];
      } else {
        r := Err(IO(UnexpectedEof));
        remaining := [];
      }
    }
  }

  /** Entries already collected, put in front of what the rest of the stream
      gives; an error or a fault in the rest discards them. */
  function Prepend(v: seq<Entry>, o: Outcome<Result<seq<Entry>>>): Outcome<Result<seq<Entry>>>
  {
    match o
    case Returned(Ok(es)) => Returned(Ok(v + es))
    case _ => o
  }

  /** What `parse` makes of a stream holding exactly `input`. */
  function Decode(order: ByteOrder, input: seq<u8>): (r: Outcome<Result<seq<Entry>>>)
    ensures r.Returned? && r.value.Ok? ==> H.HeaderSize * |r.value.value| <= |input|
    decreases |input|
  {
    if |input| < H.HeaderSize then
      Returned(Ok([]))
    else
      match H.Parse(input[..H.HeaderSize])
      case Faulted(f) => Faulted(f)
      case Returned(Err(e)) => Returned(Err(e))
      case Returned(Ok(h)) =>
        var rest := input[H.HeaderSize..];
        if |rest| < h.length then
          Returned(Err(IO(UnexpectedEof)))
        else
          match R.Parse(order, rest[..h.length], h.recordType)
          case Faulted(f) => Faulted(f)
          case Returned(rec) => Prepend([(h, rec)], Decode(order, rest[h.length..]))
  }

  /** One turn of the decode: a header that decodes, followed by its whole
      body, puts one entry in front of what the rest of the stream gives. */
  lemma DecodeStep(order: ByteOrder, input: seq<u8>)
    requires |input| >= H.HeaderSize
    requires H.Parse(input[..H.HeaderSize]).Returned?
    requires H.Parse(input[..H.HeaderSize]).value.Ok?
    requires var h := H.Parse(input[..H.HeaderSize]).value.value;
      && |input| - H.HeaderSize >= h.length
      && R.Parse(order, input[H.HeaderSize..][..h.length], h.recordType).Returned?
    ensures var h := H.Parse(input[..H.HeaderSize]).value.value;
      var rest := input[H.HeaderSize..];
      Decode(order, input)
        == Prepend([(h, R.Parse(order, rest[..h.length], h.recordType).value)], Decode(order, rest[h.length..]))
  {
  }

  lemma PrependPrepend(a: seq<Entry>, b: seq<Entry>, o: Outcome<Result<seq<Entry>>>)
    ensures Prepend(a, Prepend(b, o)) == Prepend(a + b, o)
  {
    match o
    case Returned(Ok(es)) => assert a + (b + es) == (a + b) + es;
    case _ =>
  }

  lemma PrependNothing(o: Outcome<Result<seq<Entry>>>)
    ensures Prepend([], o) == o
  {
    match o
    case Returned(Ok(es)) => assert [] + es == es;
    case _ =>
  }

  // The ways one turn of the decode can end the stream.

  lemma DecodeEnds(order: ByteOrder, input: seq<u8>, v: seq<Entry>)
    requires |input| < H.HeaderSize
    ensures Prepend(v, Decode(order, input)) == Returned(Ok(v))
  {
    assert v + [] == v;
  }

  lemma DecodeHeaderFails(order: ByteOrder, input: seq<u8>)
    requires |input| >= H.HeaderSize
    requires !(H.Parse(input[..H.HeaderSize]).Returned? && H.Parse(input[..H.HeaderSize]).value.Ok?)
    ensures var hp := H.Parse(input[..H.HeaderSize]);
      Decode(order, input) == if hp.Faulted? then Faulted(hp.fault) else Returned(Err(hp.value.error))
  {
  }

  lemma DecodeBodyShort(order: ByteOrder, input: seq<u8>)
    requires |input| >= H.HeaderSize
    requires H.Parse(input[..H.HeaderSize]).Returned? && H.Parse(input[..H.HeaderSize]).value.Ok?
    requires |input| - H.HeaderSize < H.Parse(input[..H.HeaderSize]).value.value.length
    ensures Decode(order, input) == Returned(Err(IO(UnexpectedEof)))
  {
  }

  lemma DecodeBodyFaults(order: ByteOrder, input: seq<u8>)
    requires |input| >= H.HeaderSize
    requires H.Parse(input[..H.HeaderSize]).Returned? && H.Parse(input[..H.HeaderSize]).value.Ok?
    requires var h := H.Parse(input[..H.HeaderSize]).value.value;
      && |input| - H.HeaderSize >= h.length
      && R.Parse(order, input[H.HeaderSize..][..h.length], h.recordType).Faulted?
    ensures var h := H.Parse(input[..H.HeaderSize]).value.value;
      Decode(order, input) == Faulted(R.Parse(order, input[H.HeaderSize..][..h.length], h.recordType).fault)
  {
  }

  /** `parse`: read a header, decode it, read its body, decode the body and
      push the pair, until no whole header is left. */
  method Parse(order: ByteOrder, rd: Reader) returns (out: Outcome<Result<seq<Entry>>>)
    modifies rd
    ensures out == Decode(order, old(rd.remaining))
    ensures out.Returned? && out.value.Ok? ==> rd.remaining == []
    ensures out.Returned? && out.value.Err? && out.value.error.IO? ==> rd.remaining == []
  {
    var v: seq<Entry> := [];
    PrependNothing(Decode(order, rd.remaining));
    while true
      invariant Decode(order, old(rd.remaining)) == Prepend(v, Decode(order, rd.remaining))
      decreases |rd.remaining|
    {
      ghost var input := rd.remaining;
      var headerBytes := rd.ReadExact(H.HeaderSize);
      if headerBytes.Err? {
        DecodeEnds(order, input, v);
        return Returned(Ok(v));
      }
      var header := H.Parse(headerBytes.value);
      if header.Faulted? {
        DecodeHeaderFails(order, input);
        return Faulted(header.fault);
      }
      if header.value.Err? {
        DecodeHeaderFails(order, input);
        return Returned(Err(header.value.error));
      }
      var h := header.value.value;
      var body := rd.ReadExact(h.length);
      if body.Err? {
        DecodeBodyShort(order, input);
        return Returned(Err(body.error));
      }
      var rec := R.Parse(order, body.value, h.recordType);
      if rec.Faulted? {
        DecodeBodyFaults(order, input);
        return Faulted(rec.fault);
      }
      DecodeStep(order, input);
      PrependPrepend(v, [(h, rec.value)], Decode(order, rd.remaining));
      v := v + [(h, rec.value)];
    }
  }

  // Framed streams: the partner of Decode.

  /** A header's bytes and its body's bytes as they sit in the stream. */
  datatype Frame = Frame(header: seq<u8>, body: seq<u8>)

  /** The header decodes, announces exactly the body's length, and the body
      decodes without a fault (possibly to an error). */
  predicate WellFramed(order: ByteOrder, f: Frame)
  {
    && |f.header| == H.HeaderSize
    && H.Parse(f.header).Returned?
    && H.Parse(f.header).value.Ok?
    && H.Parse(f.header).value.value.length == |f.body|
    && R.Parse(order, f.body, H.Parse(f.header).value.value.recordType).Returned?
  }

  predicate AllWellFramed(order: ByteOrder, frames: seq<Frame>)
  {
    frames == [] || (WellFramed(order, frames[0]) && AllWellFramed(order, frames[1..]))
  }

  function Join(frames: seq<Frame>): seq<u8>
  {
    if frames == [] then [] else frames[0].header + frames[0].body + Join(frames[1..])
  }

  /** The entry a well-framed record decodes to. */
  function EntryOf(order: ByteOrder, f: Frame): (e: Entry)
    requires WellFramed(order, f)
    ensures e.0 == H.Parse(f.header).value.value
    ensures e.1 == R.Parse(order, f.body, e.0.recordType).value
  {
    var h := H.Parse(f.header).value.value;
    (h, R.Parse(order, f.body, h.recordType).value)
  }

  function Entries(order: ByteOrder, frames: seq<Frame>): (es: seq<Entry>)
    requires AllWellFramed(order, frames)
    ensures |es| == |frames|
    ensures frames != [] ==> es[0] == EntryOf(order, frames[0]) && es[1..] == Entries(order, frames[1..])
  {
    if frames == [] then [] else [EntryOf(order, frames[0])] + Entries(order, frames[1..])
  }

  /** One well-framed record in front of a stream contributes its entry. */
  lemma DecodeFrame(order: ByteOrder, f: Frame, tail: seq<u8>)
    requires WellFramed(order, f)
    ensures Decode(order, f.header + f.body + tail) == Prepend([EntryOf(order, f)], Decode(order, tail))
  {
    var input := f.header + f.body + tail;
    SplitFrame(f.header, f.body, tail);
    DecodeStep(order, input);
  }

  lemma SplitHeader(header: seq<u8>, rest: seq<u8>)
    requires |header| == H.HeaderSize
    ensures (header + rest)[..H.HeaderSize] == header
    ensures (header + rest)[H.HeaderSize..] == rest
  {
  }

  lemma SplitFrame(header: seq<u8>, body: seq<u8>, tail: seq<u8>)
    requires |header| == H.HeaderSize
    ensures var input := header + body + tail;
      && input[..H.HeaderSize] == header
      && input[H.HeaderSize..][..|body|] == body
      && input[H.HeaderSize..][|body|..] == tail
  {
    var input := header + body + tail;
    assert input[H.HeaderSize..] == body + tail;
  }

  /** Entry i is what frame i decodes to. */
  lemma {:induction false} EntriesAt(order: ByteOrder, frames: seq<Frame>, i: nat)
    requires AllWellFramed(order, frames) && i < |frames|
    ensures WellFramed(order, frames[i])
    ensures Entries(order, frames)[i] == EntryOf(order, frames[i])
  {
    if i > 0 {
      var rest := frames[1..];
      assert AllWellFramed(order, rest);
      EntriesAt(order, rest, i - 1);
      assert rest[i - 1] == frames[i];
      assert Entries(order, frames)[i] == Entries(order, rest)[i - 1];
    }
  }

  /** Well-framed records in front of any stream contribute one entry each,
      in stream order, ahead of whatever the rest of the stream gives; if
      the rest fails, they are discarded with it. */
  lemma {:induction false} DecodePrefix(order: ByteOrder, frames: seq<Frame>, rest: seq<u8>)
    requires AllWellFramed(order, frames)
    ensures Decode(order, Join(frames) + rest) == Prepend(Entries(order, frames), Decode(order, rest))
  {
    JoinCons(frames, rest);
    if frames == [] {
      PrependNothing(Decode(order, rest));
    } else {
      var f := frames[0];
      DecodeFrame(order, f, Join(frames[1..]) + rest);
      DecodePrefix(order, frames[1..], rest);
      PrependPrepend([EntryOf(order, f)], Entries(order, frames[1..]), Decode(order, rest));
    }
  }

  lemma JoinCons(frames: seq<Frame>, rest: seq<u8>)
    ensures frames == [] ==> Join(frames) + rest == rest
    ensures frames != [] ==>
      Join(frames) + rest == frames[0].header + frames[0].body + (Join(frames[1..]) + rest)
  {
  }

  /** A stream of well-framed records followed by less than a header decodes
      to exactly one entry per record, in order; the trailing bytes are
      dropped without an error. */
  lemma DecodeFramed(order: ByteOrder, frames: seq<Frame>, tail: seq<u8>)
    requires AllWellFramed(order, frames)
    requires |tail| < H.HeaderSize
    ensures Decode(order, Join(frames) + tail) == Returned(Ok(Entries(order, frames)))
  {
    DecodePrefix(order, frames, tail);
    assert Entries(order, frames) + [] == Entries(order, frames);
  }

  /** A header that fails to decode ends the whole decode with its error,
      however many records came before it. */
  lemma HeaderErrorAborts(order: ByteOrder, frames: seq<Frame>, header: seq<u8>, rest: seq<u8>)
    requires AllWellFramed(order, frames)
    requires |header| == H.HeaderSize
    requires H.Parse(header).Returned? && H.Parse(header).value.Err?
    ensures Decode(order, Join(frames) + (header + rest)) == Returned(Err(H.Parse(header).value.error))
  {
    DecodePrefix(order, frames, header + rest);
    SplitHeader(header, rest);
  }

  /** A body shorter than its header announces ends the whole decode with an
      I/O error. */
  lemma ShortBodyAborts(order: ByteOrder, frames: seq<Frame>, header: seq<u8>, partial: seq<u8>)
    requires AllWellFramed(order, frames)
    requires |header| == H.HeaderSize
    requires H.Parse(header).Returned? && H.Parse(header).value.Ok?
    requires |partial| < H.Parse(header).value.value.length
    ensures Decode(order, Join(frames) + (header + partial)) == Returned(Err(IO(UnexpectedEof)))
  {
    DecodePrefix(order, frames, header + partial);
    SplitHeader(header, partial);
  }

  /** A body that faults (a panic in the record decoder) ends the whole
      decode with that fault. */
  lemma BodyFaultAborts(order: ByteOrder, frames: seq<Frame>, header: seq<u8>, body: seq<u8>, rest: seq<u8>)
    requires AllWellFramed(order, frames)
    requires |header| == H.HeaderSize
    requires H.Parse(header).Returned? && H.Parse(header).value.Ok?
    requires H.Parse(header).value.value.length == |body|
    requires R.Parse(order, body, H.Parse(header).value.value.recordType).Faulted?
    ensures Decode(order, Join(frames) + (header + body + rest)) == Faulted(IndexPanic)
  {
    DecodePrefix(order, frames, header + body + rest);
    SplitFrame(header, body, rest);
  }

  /** A stream holding one well-framed record decodes to its entry alone. */
  lemma DecodeOne(order: ByteOrder, f: Frame)
    requires WellFramed(order, f)
    ensures Decode(order, f.header + f.body) == Returned(Ok([EntryOf(order, f)]))
  {
    DecodeFrame(order, f, []);
    assert f.header + f.body + [] == f.header + f.body;
    assert [EntryOf(order, f)] + [] == [EntryOf(order, f)];
  }

  /** A stream holding one system-call-return record (code 2, everything else
      zero) in a little-endian session decodes to exactly that one entry. */
  lemma SingleSystemCallReturn(pid: u32, comm: seq<u8>)
    requires |comm| == H.CommSize && 0 in comm
    requires Utf8.Valid(comm[..FirstZero(comm)])
    ensures var raw := H.RawHeader(16, 2, pid, comm, 0, 0, 0);
      var body := R.SystemCallReturnBytes(Little, 2, 0, 0, 0);
      var header := H.Header(16, H.SystemCallReturn, pid, comm[..FirstZero(comm)], H.TimeVal(0, 0), 0);
      Decode(Little, H.Layout(raw) + body) == Returned(Ok([(header, Ok(R.SystemCallReturn(2, 0, 0, 0)))]))
  {
    var raw := H.RawHeader(16, 2, pid, comm, 0, 0, 0);
    var f := Frame(H.Layout(raw), R.SystemCallReturnBytes(Little, 2, 0, 0, 0));
    SystemCallReturnFrame(pid, comm);
    DecodeOne(Little, f);
  }

  lemma SystemCallReturnFrame(pid: u32, comm: seq<u8>)
    requires |comm| == H.CommSize && 0 in comm
    requires Utf8.Valid(comm[..FirstZero(comm)])
    ensures var f := Frame(H.Layout(H.RawHeader(16, 2, pid, comm, 0, 0, 0)),
                           R.SystemCallReturnBytes(Little, 2, 0, 0, 0));
      && WellFramed(Little, f)
      && EntryOf(Little, f)
         == (H.Header(16, H.SystemCallReturn, pid, comm[..FirstZero(comm)], H.TimeVal(0, 0), 0),
             Ok(R.SystemCallReturn(2, 0, 0, 0)))
  {
    var raw := H.RawHeader(16, 2, pid, comm, 0, 0, 0);
    H.LayoutRoundTrip(raw);
    assert H.FromU16(2).value == H.SystemCallReturn;
    R.SystemCallReturnRoundTrip(Little, 2, 0, 0, 0);
  }
}
