/** UTF-8 validity as `String::from_utf8` and `CStr::to_str` check it: the
    byte-sequence syntax of section 4 of RFC 3629. A decoded Rust `String` is
    represented by its (valid) UTF-8 bytes. */
module Utf8 {
  import opened Bytes
  import opened Errors

  predicate Tail(b: u8)
  {
    0x80 <= b <= 0xBF
  }

  /** Length of the well-formed character that starts `s` (UTF8-1 to UTF8-4),
      or 0 when `s` does not start with one. */
  function CharLength(s: seq<u8>): (n: nat)
    ensures n <= 4 && n <= |s|
    ensures s != [] && s[0] < 0x80 ==> n == 1
  {
    if s == [] then 0
    else
      var b := s[0];
      if b <= 0x7F then 1
      else if 0xC2 <= b <= 0xDF then
        if |s| >= 2 && Tail(s[1]) then 2 else 0
      else if b == 0xE0 then
        if |s| >= 3 && 0xA0 <= s[1] <= 0xBF && Tail(s[2]) then 3 else 0
      else if 0xE1 <= b <= 0xEC || 0xEE <= b <= 0xEF then
        if |s| >= 3 && Tail(s[1]) && Tail(s[2]) then 3 else 0
      else if b == 0xED then
        if |s| >= 3 && 0x80 <= s[1] <= 0x9F && Tail(s[2]) then 3 else 0
      else if b == 0xF0 then
        if |s| >= 4 && 0x90 <= s[1] <= 0xBF && Tail(s[2]) && Tail(s[3]) then 4 else 0
      else if 0xF1 <= b <= 0xF3 then
        if |s| >= 4 && Tail(s[1]) && Tail(s[2]) && Tail(s[3]) then 4 else 0
      else if b == 0xF4 then
        if |s| >= 4 && 0x80 <= s[1] <= 0x8F && Tail(s[2]) && Tail(s[3]) then 4 else 0
      else 0
  }

  /** `s` is a sequence of well-formed characters. */
  predicate Valid(s: seq<u8>)
    decreases |s|
  {
    s == [] || (CharLength(s) > 0 && Valid(s[CharLength(s)..]))
  }

  /** Length of the longest prefix of `s` made of well-formed characters,
      scanning from the start (`valid_up_to`). */
  function ValidUpTo(s: seq<u8>): (n: nat)
    ensures n <= |s|
    decreases |s|
  {
    var k := CharLength(s);
    if k == 0 then 0 else k + ValidUpTo(s[k..])
  }

  /** A character's length depends only on its own bytes. */
  lemma CharLengthOfPrefix(s: seq<u8>, j: nat)
    requires CharLength(s) <= j <= |s| && CharLength(s) > 0
    ensures CharLength(s[..j]) == CharLength(s)
  {
  }

  lemma {:induction false} ValidIffAllValid(s: seq<u8>)
    ensures Valid(s) <==> ValidUpTo(s) == |s|
    decreases |s|
  {
    var k := CharLength(s);
    if k > 0 {
      ValidIffAllValid(s[k..]);
    }
  }

  /** The bytes up to `valid_up_to` are valid. */
  lemma {:induction false} ValidUpToIsValid(s: seq<u8>)
    ensures Valid(s[..ValidUpTo(s)])
    decreases |s|
  {
    var k := CharLength(s);
    if k > 0 {
      var n := ValidUpTo(s);
      var p := s[..n];
      ValidUpToIsValid(s[k..]);
      CharLengthOfPrefix(s, n);
      assert p[k..] == s[k..][..ValidUpTo(s[k..])];
    }
  }

  /** Bytes below 0x80 (ASCII) are always valid. */
  lemma {:induction false} AsciiValid(s: seq<u8>)
    requires forall i :: 0 <= i < |s| ==> s[i] < 0x80
    ensures Valid(s)
    decreases |s|
  {
    if s != [] {
      AsciiValid(s[1..]);
    }
  }

  /** `String::from_utf8`: the bytes themselves when valid, otherwise a UTF8
      error saying where the valid prefix ends. */
  function FromUtf8(s: seq<u8>): (r: Result<seq<u8>>)
    ensures r.Ok? <==> Valid(s)
    ensures r.Ok? ==> r.value == s
    ensures r.Err? ==> r.error.UTF8? && r.error.utf8.validUpTo < |s|
  {
    ValidIffAllValid(s);
    if ValidUpTo(s) == |s| then Ok(s) else Err(UTF8(Utf8Error(ValidUpTo(s))))
  }
}
