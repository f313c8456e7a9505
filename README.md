# ktrace-rs decoding engine, modelled in Dafny

This project models the decoding engine of `ktrace-rs`, a reader for FreeBSD
ktrace dumps. A dump is a sequence of records. Each record is a 56-byte
`struct ktr_header` followed by `ktr_len` bytes of body. The body is decoded
according to the header's record type, one of fourteen.

The model covers these parts of the engine:

- the shared error type and its display text (`Errors`);
- the record-type table and the header decoder (`Headers`);
- the decoders for the fourteen record bodies (`Records`);
- the nested capability-failure format (`Capabilities`);
- the older, partial body decoder that still ships beside the complete one
  (`LegacyRecords`);
- the stream-framing loop (`Ktrace`).

Three support modules hold the primitives the engine relies on: byte-order
reads and writes (`Bytes`), decimal and `{:?}` text (`Fmt`), and UTF-8
validity as defined in section 4 of RFC 3629 (`Utf8`).

How the model represents the source:

- **Panics.** Where the source panics or reads outside its buffer, the model
  returns a distinct outcome, `Faulted(IndexPanic)` or
  `Faulted(CommandOverrun)`. These are not errors (`Errors.Outcome`). A
  panic in any record ends the whole decode.
- **Byte order.** The session byte order `E` is a parameter, `Little` or
  `Big`. The native order is fixed to little-endian on a 64-bit target, as on
  FreeBSD/amd64. The header and the process-creation flags are read in this
  native order.
- **Text.** A decoded Rust `String` is kept as its bytes, which the decoder
  has checked to be valid UTF-8. Error texts are Dafny strings.
- **`got` texts.** The `got` half of each error is modelled exactly:
  - `format!["{} B: {:?}", len, data]` is `Fmt.Preview`;
  - `{:?}` of a byte slice is `Fmt.DebugBytes`, e.g. `[1, 2]`;
  - `to_string()` of an integer is `Fmt.Dec`.
- **Imperative parts.** The stream loop is a `method` over a `Reader` object
  whose remaining bytes it consumes. It is proved equal to the function
  `Ktrace.Decode`. The legacy system-call arm is a `method` with a `while`
  loop. It is proved equal to the complete decoder's iterator version.

Behaviour of the code worth noting:

- **Trailing bytes.** A stream that ends with fewer than 56 bytes after the
  last complete record still decodes with `Ok`. `read_exact` reports
  `UnexpectedEof` for any short read, and the loop treats that as the end
  (`Ktrace.DecodeFramed`).
- **Invalid command text.** A command name that is not valid UTF-8 gives
  `Message("invalid 'command' in ktrace record header")`
  (`Headers.InvalidCommand`).
- **Header check order.** The command's C-string scan runs before the type
  code is checked, so a header with no NUL after byte 12 faults before any
  type error. After the scan, an invalid type code is reported in preference
  to invalid command text (`Headers.TypeCheckedBeforeCommand`).
- **Capability payload size.** For a NotCapable failure, the bytes after
  the 8-byte prefix must be a multiple of 16. A 24-byte body, which has a
  16-byte payload, gives one mask each for `held` and `needed`
  (`Capabilities.NotCapableOneMaskEach`).
- **Capability version.** The version is derived from the payload size as
  2n - 2, where n is the number of masks in each half
  (`Capabilities.NotCapableHalves`).

## Model

| member | source | states |
|---|---|---|
| Errors.BadValueOf | src/error.rs:25-32 | the error is a `BadValue` holding both texts verbatim |
| Errors.Msg | src/error.rs:34-38 | the error is a `Message` holding the text unchanged, and no other variant |
| Errors.Display | src/error.rs:41-61 | a `BadValue` reads "bad value: expected E, got G"; a `Message` is its own text; `IO` and `UTF8` texts start with "I/O error: " and "UTF8 error: " |
| Errors.DisplayBadValueParts | src/error.rs:44-46 | the expected and got texts can be cut back out of the displayed text at fixed offsets |
| Fmt.Dec | src/header.rs:114 | a decimal rendering is non-empty, all digits, and starts with '0' only for zero |
| Fmt.DecRoundTrip | src/header.rs:114 | reading the decimal text back gives the number |
| Fmt.DebugBytesShape | src/record/mod.rs:253-256 | the `{:?}` text of bytes is bracketed, is "[]" exactly for no bytes, and holds no bracket between the outer two |
| Fmt.PreviewNamesLength | src/record/mod.rs:117 | the `"{} B: {:?}"` text starts with the decimal length, which reads back as the number of bytes, followed by " B: " and the `{:?}` text of the bytes |
| Fmt.DecInjective | src/record/capfail.rs:91-92 | different numbers have different decimal texts |
| Bytes.Value | src/record/mod.rs:120-121 | the value read from n bytes is below 256^n |
| Bytes.ReadU16Encodes | src/record/mod.rs:120-121 | the u16 read is the one value whose 2 bytes in the session order are the bytes read |
| Bytes.ReadU32Encodes | src/record/mod.rs:152 | the u32 read is the one value whose 4 bytes in the session order are the bytes read |
| Bytes.ReadU64Encodes | src/record/mod.rs:153 | the u64 read is the one value whose 8 bytes in the session order are the bytes read |
| Bytes.ReadI32 | src/record/mod.rs:170 | a signed 32-bit read is the unsigned read, minus 2^32 when at least 2^31 |
| Bytes.ReadI64 | src/header.rs:60-62 | a signed 64-bit read is the unsigned read, minus 2^64 when at least 2^63 |
| Bytes.ReadI64AsUsize | src/header.rs:64 | widening the signed thread id to `usize` gives the unsigned reading of the same 8 bytes |
| Bytes.ValueOfBytes | src/record/mod.rs:120-121 | reading the bytes of a value written in an order gives the value back |
| Bytes.BytesOfValue | src/record/mod.rs:120-121 | writing back a value read in an order gives the bytes read |
| Bytes.BigIsReversedLittle | src/record/mod.rs:110-111 | the big-endian reading of bytes is the little-endian reading of the reversed bytes |
| Bytes.Chunks | src/record/capfail.rs:72-75 | every chunk is non-empty and at most k bytes long |
| Bytes.ChunksExact | src/record/capfail.rs:72-75 | a slice of k*n bytes splits into n chunks, chunk i being bytes k*i to k*i+k |
| Bytes.FlattenChunks | src/record/capfail.rs:123-125 | the chunks put back together are the slice |
| Bytes.ReadU32s | src/record/mod.rs:193-195 | word i of the mask is the u32 read from bytes 4i to 4i+4 |
| Bytes.ReadU64s | src/record/mod.rs:132-135 | argument i is the u64 read from bytes 8i to 8i+8 |
| Bytes.ReadU64sOfBytes | src/record/mod.rs:132-135 | decoding encoded u64 words gives the words back |
| Bytes.U64sBytesOfRead | src/record/mod.rs:132-135 | encoding decoded u64 words gives the bytes back |
| Bytes.FirstZero | src/record/mod.rs:215-219 | the position of the first NUL: none before it, a NUL at it, and the end of the slice exactly when there is none |
| Bytes.ReadI64OfSignedBytes | src/header.rs:60-62 | the two's complement bytes of a signed 64-bit value read back as that value |
| Bytes.ReadI32OfSignedBytes | src/record/mod.rs:170 | the two's complement bytes of a signed 32-bit value read back as that value |
| Utf8.FromUtf8 | src/record/mod.rs:157-161 | the conversion succeeds exactly on valid UTF-8 and keeps the bytes; otherwise it is a `UTF8` error whose valid prefix is shorter than the input |
| Utf8.ValidIffAllValid | src/record/mod.rs:157-161 | bytes are valid exactly when the valid prefix covers all of them |
| Utf8.ValidUpToIsValid | src/record/mod.rs:157-161 | the prefix up to `valid_up_to` is valid |
| Utf8.AsciiValid | src/header.rs:50-53 | bytes below 0x80 are always valid text |
| Headers.RecordType.Code | src/header.rs:79-94 | every type has a discriminant between 1 and 14 |
| Headers.RecordType.Name | src/header.rs:119-140 | the display text of a type has at least five characters and starts with a capital letter |
| Headers.NameInjective | src/header.rs:119-140 | different types have different display texts |
| Headers.FromU16 | src/header.rs:97-116 | a code is accepted exactly when it is between 1 and 14, giving the type with that discriminant; any other code fails with `BadValue("ktr_type", <decimal code>)` |
| Headers.FromU16OfCode | src/header.rs:99-113 | the code of each type maps back to that type |
| Headers.RejectedCodeIsNamed | src/header.rs:114 | a rejected code (0 or above 14) can be read back from the error's got text |
| Headers.CommandScan | src/header.rs:50 | the scan faults exactly when no NUL follows byte 12; otherwise it gives the NUL-free bytes from byte 12 up to the first NUL |
| Headers.Parse | src/header.rs:47-66 | decoding faults, always as an overrun, exactly when bytes 12 to 56 hold no NUL; its only errors are the bad `ktr_type` code and the invalid command `Message`; a decoded header's type has the code stored at bytes 4 to 6 |
| Headers.ParseSucceeds | src/header.rs:47-66 | a header decodes exactly when a NUL follows byte 12, the type code is between 1 and 14 and the command text is UTF-8 |
| Headers.PaddingIgnored | src/header.rs:55-65 | the two bytes after the type code never change the outcome |
| Headers.ParsedFields | src/header.rs:47-66 | a decoded header's length, type code, pid, command, timestamp and thread id are the native reads at offsets 0, 4, 8, 12, 32, 40 and 48; the command is valid text ending at a NUL |
| Headers.CommandWithinField | src/header.rs:22 | with a NUL inside the 20-byte field the command is shorter than 20 bytes |
| Headers.TypeCheckedBeforeCommand | src/header.rs:57-59 | an invalid type code is the error even when the command text is also invalid |
| Headers.InvalidCommand | src/header.rs:50-53 | command text that is not UTF-8 fails with `Message("invalid 'command' in ktrace record header")` |
| Headers.LayoutRoundTrip | src/header.rs:36-66 | decoding the C layout of a raw header gives back every field: the command up to its NUL, the thread id reinterpreted as unsigned |
| Headers.LayoutFields | src/header.rs:36-44 | each integer field of a laid-out raw header reads back from its offset |
| Headers.ParsedFieldsReencode | src/header.rs:55-65 | re-encoding the decoded length, pid and thread id gives back their header bytes |
| Capabilities.ParseRights | src/record/capfail.rs:113-127 | succeeds exactly on a multiple of 8 bytes, keeping the version, with mask i being bytes 8i to 8i+8 and the masks concatenating to the input; otherwise `BadValue("cap_rights_t", "<len>B: <bytes>")` |
| Capabilities.ParseCapFail | src/record/capfail.rs:46-94 | below 20 bytes, a `BadValue`; discriminant 1, 2 and 3 give Increase, Syscall and Lookup; 0 gives NotCapable exactly when the payload after byte 8 is a multiple of 16 bytes; other values fail naming the value in decimal |
| Capabilities.NotCapableHalves | src/record/capfail.rs:59-86 | `held` is the first half and `needed` the second, each with n masks that `CapabilityRights::parse` also gives; both halves carry version 2n - 2 without underflow; their masks concatenate to the payload |
| Capabilities.NotCapableOneMaskEach | src/record/capfail.rs:59-86 | a 24-byte NotCapable body gives one mask each, at version 0 |
| Records.Parse | src/record/mod.rs:110-293 | only SystemCall, Signal and ContextSwitch bodies can fault, always with an index panic; a decoded record is of the requested type and never `Drop`; a UserData body is returned unchanged; a CapabilityFailure body gives exactly what `CapFail::parse` gives, success or error |
| Records.ParseSystemCall | src/record/mod.rs:114-141 | below 4 bytes, `BadValue("2*u16")`; 4 to 7 bytes fault; from 8 bytes on, success exactly when the body is 8 + 8 * count bytes, else `BadValue("<count> 8B arguments")`; argument i is the u64 at byte 8 + 8i |
| Records.ParseSystemCallReturn | src/record/mod.rs:143-155 | succeeds exactly on 16 bytes, with the fields at 0, 2, 4 and 8; otherwise `BadValue("16 B")` |
| Records.ParseNamei | src/record/mod.rs:157-161 | succeeds exactly on valid UTF-8, keeping the body as the path; fails only with `UTF8` |
| Records.ParseGenericIO | src/record/mod.rs:163-179 | below 8 bytes, `BadValue("2*int")`; direction 0 is Read, 1 is Write and any other value fails with `BadValue("uio_rw", <decimal>)`; the data is the body from byte 8 |
| Records.ParseSignal | src/record/mod.rs:181-197 | below 20 bytes, a `BadValue`; from 20 on, faults exactly when the mask tail is not a multiple of 4 bytes; otherwise the handler is read from bytes 8 to 16 and mask word i from byte 20 + 4i |
| Records.ParseContextSwitch | src/record/mod.rs:199-208 | faults exactly below 8 bytes; otherwise succeeds exactly when the message from byte 8 is valid UTF-8, with the flags being the words at 0 and 4 read as non-zero |
| Records.ParseStruct | src/record/mod.rs:214-228 | with no NUL, fails with `Message("no NULL byte in struct name")`; otherwise the name is the NUL-free prefix before the first NUL, the content starts with that NUL, and name followed by content is the body |
| Records.ParseSysctl | src/record/mod.rs:230-238 | an empty body fails with `BadValue("sysctl MIB", "empty string")`; otherwise succeeds exactly on valid UTF-8 |
| Records.ParseProcessCreation | src/record/mod.rs:240-249 | succeeds exactly on 4 bytes, read in the native order whatever the session order |
| Records.ParseProcessDestruction | src/record/mod.rs:251-260 | succeeds exactly on an empty body; otherwise `BadValue` with the bytes in `{:?}` form |
| Records.ParsePageFault | src/record/mod.rs:267-279 | succeeds exactly from 12 bytes on, with the address at 0..8 and the type at 8..12 |
| Records.ParsePageFaultEnd | src/record/mod.rs:281-291 | succeeds exactly on 4 bytes; otherwise `BadValue("int")` |
| Records.SystemCallRoundTrip | src/record/mod.rs:114-141 | an encoded system call decodes to its number and arguments, whatever the padding holds |
| Records.SystemCallReencode | src/record/mod.rs:114-141 | an accepted system call body is the encoding of its record with its own padding |
| Records.SystemCallReturnRoundTrip | src/record/mod.rs:143-155 | an encoded system call return decodes to its four fields |
| Records.SystemCallReturnReencode | src/record/mod.rs:143-155 | an accepted system call return body is exactly the encoding of its record |
| Records.GenericIORoundTrip | src/record/mod.rs:163-179 | an encoded descriptor, direction and payload decode back to themselves |
| Records.PageFaultIgnoresTail | src/record/mod.rs:267-279 | bytes past the first 12 of a page-fault body do not change the result |
| Records.OrderIndependentTypes | src/record/mod.rs:157-260 | Namei, UserData, Struct, Sysctl, ProcessCreation and ProcessDestruction bodies decode the same in either session order |
| Records.ProcessCreationReadsNative | src/record/mod.rs:240-249 | in a big-endian session, the bytes 1, 0, 0, 0 still give flags 1 |
| LegacyRecords.Parse | src/record.rs:74-183 | on SystemCall, SystemCallReturn, Namei, GenericIO and ProcessCreation it does what the complete decoder does; every other type fails with "Unknown data of type <name>: <bytes>" |
| LegacyRecords.ParseSystemCall | src/record.rs:78-108 | the loop that pushes one argument per turn gives the complete decoder's chunked result, including its errors and fault |
| LegacyRecords.UnknownType | src/record.rs:180-181 | the refusal is a `Message` naming the type and showing the body |
| Ktrace.Reader.ReadExact | src/lib.rs:37-49 | takes exactly n bytes from the front, or fails with `UnexpectedEof` when fewer remain, using them up |
| Ktrace.Decode | src/lib.rs:30-56 | a successful decode has at most one entry per 56 bytes of input |
| Ktrace.Parse | src/lib.rs:30-56 | the loop's outcome is `Decode` of the whole stream; after `Ok`, or after an I/O error, the reader has no bytes left |
| Ktrace.DecodeFrame | src/lib.rs:36-52 | a header and its body are consumed in order, and their pair goes in front of what the rest gives |
| Ktrace.DecodePrefix | src/lib.rs:33-55 | well-framed records contribute one entry each, in stream order; a later error or fault discards them |
| Ktrace.DecodeFramed | src/lib.rs:35-55 | well-framed records followed by fewer than 56 bytes decode with `Ok` to exactly one entry per record |
| Ktrace.EntriesAt | src/lib.rs:50-52 | entry i pairs header i with what the complete decoder makes of body i, error or not |
| Ktrace.HeaderErrorAborts | src/lib.rs:46 | a header that fails to decode ends the whole decode with its error |
| Ktrace.ShortBodyAborts | src/lib.rs:48-49 | a body shorter than its header announces ends the decode with `IO(UnexpectedEof)` |
| Ktrace.BodyFaultAborts | src/lib.rs:50 | a body whose decoding panics ends the whole decode with that fault |
| Ktrace.DecodeOne | src/lib.rs:35-55 | a stream of one well-framed record decodes to that record's entry alone |
| Ktrace.SingleSystemCallReturn | src/lib.rs:30-56 | one system-call-return header with length 16 and a 16-byte body, in a little-endian session, decode to exactly one entry |

## Left out

- The command-line program (`src/bin/main.rs`) is argument parsing, file
  opening and printing.
- Ktrace.Parse: the reader's position after a header error or a body fault
  is not stated. The source returns at once in those cases and never reads
  from the stream again.
- The `Display` impls for records, capability failures, capability rights
  and headers are presentation. They depend on a system-call name table and
  on `BitVec` formatting that are not part of this model. The type names
  used in the legacy decoder's refusal are modelled (`RecordType.Name`).
- `BitVec` is a foreign crate. Each capability mask is kept as its raw 8
  bytes.
- Errors.Display: states only the prefixes of the `IO` and `UTF8` texts.
  The rest of those texts comes from the standard library's own error
  formatting. The model uses a stand-in wording for it.
- The stream is held in memory, so `read_exact` can only fail with
  `UnexpectedEof`. The branch that returns any other I/O error
  (src/lib.rs:42) has no counterpart.
- A panic ends the program in the source. The model turns it into a
  `Faulted` outcome that ends the decode. The out-of-bounds scan of a header
  with no NUL after byte 12 is undefined behaviour in the source; the model
  reports it as `Faulted(CommandOverrun)` and does not model what memory the
  scan would read.
- Only one target is modelled: little-endian, with 64-bit `timeval` fields
  and thread id. Layouts for other word sizes are not.
- Allocating a body buffer of `ktr_len` bytes (up to 4 GiB) is assumed to
  succeed.
- The signal handler is kept as the 64-bit pattern of its address, never as
  a pointer.

## Model notes

- Records.Record.OfType and LegacyRecords.Handled are helper predicates that
  name the record types. They carry no row.
- The encoders (`Records.SystemCallBytes`, `Records.SystemCallReturnBytes`,
  `Records.GenericIOBytes`, `Headers.Layout`, `Bytes.U64sBytes`) have no
  counterpart in the source. They exist to state what decoding loses and
  keeps.
