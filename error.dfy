/** The failure vocabulary shared by every decoder, and the outcome of code
    that can also panic. */
module Errors {
  import opened Fmt

  /** The only I/O failure an in-memory byte stream reports: it ran out of
      bytes in the middle of a `read_exact`. */
  datatype IoError = UnexpectedEof

  /** A failed UTF-8 conversion, carrying the length of the longest valid
      prefix of the rejected bytes. */
  datatype Utf8Error = Utf8Error(validUpTo: nat)

  datatype Error =
    | BadValue(expected: string, got: string)
    | IO(io: IoError)
    | Message(text: string)
    | UTF8(utf8: Utf8Error)

  datatype Result<T> = Ok(value: T) | Err(error: Error)

  /** What makes the source panic (or read outside its buffer) rather than
      return: a slice index out of range, or a C string scan that finds no
      terminator inside the header. */
  datatype Fault = IndexPanic | CommandOverrun

  /** A decoder either returns (a value or an error) or faults. */
  datatype Outcome<T> = Returned(value: T) | Faulted(fault: Fault)

  /** `Error::bad_value`: both descriptions are kept verbatim. */
  function BadValueOf(expected: string, got: string): (e: Error)
    ensures e.BadValue? && e.expected == expected && e.got == got
  {
    BadValue(expected, got)
  }

  /** `Error::msg`: always a `Message`, holding the text unchanged. */
  function Msg(text: string): (e: Error)
    ensures e.Message? && e.text == text
  {
    Message(text)
  }

  function IoText(e: IoError): string
  {
    match e
    case UnexpectedEof => "failed to fill whole buffer"
  }

  function Utf8Text(e: Utf8Error): string
  {
    "invalid utf-8 sequence from index " + Dec(e.validUpTo)
  }

  /** The `Display` text of an error. */
  function Display(e: Error): (s: string)
    ensures e.BadValue? ==> s == "bad value: expected " + e.expected + ", got " + e.got
    ensures e.Message? ==> s == e.text
    ensures e.IO? ==> "I/O error: " <= s
    ensures e.UTF8? ==> "UTF8 error: " <= s
  {
    match e
    case BadValue(expected, got) => "bad value: expected " + expected + ", got " + got
    case IO(io) => "I/O error: " + IoText(io)
    case Message(text) => text
    case UTF8(u) => "UTF8 error: " + Utf8Text(u)
  }

  /** The bad-value text keeps both halves: they can be cut back out of it. */
  lemma DisplayBadValueParts(expected: string, got: string)
    ensures var s := Display(BadValueOf(expected, got));
      && |s| == 20 + |expected| + 6 + |got|
      && s[20..20 + |expected|] == expected
      && s[20 + |expected|..26 + |expected|] == ", got "
      && s[26 + |expected|..] == got
  {
    var s := Display(BadValueOf(expected, got));
    assert s == "bad value: expected " + expected + ", got " + got;
    assert |"bad value: expected "| == 20;
  }
}
