/** Fixed-width integers, byte order and the primitive reader: integers of
    width 16, 32 and 64 bits read from byte slices as plain arithmetic. */
module Bytes {

  type u8 = x: int | 0 <= x < 0x100
  type u16 = x: int | 0 <= x < 0x1_0000
  type u32 = x: int | 0 <= x < 0x1_0000_0000
  type u64 = x: int | 0 <= x < 0x1_0000_0000_0000_0000
  type i32 = x: int | -0x8000_0000 <= x < 0x8000_0000
  type i64 = x: int | -0x8000_0000_0000_0000 <= x < 0x8000_0000_0000_0000

  /** The byte order of a decode session. */
  datatype ByteOrder = Little | Big

  /** The order of the machine the trace was written on. The model fixes one
      target: a little-endian machine with 64-bit words (FreeBSD on amd64). */
  const Native: ByteOrder := Little

  function Pow256(n: nat): (p: nat)
    ensures p >= 1
  {
    if n == 0 then 1 else 256 * Pow256(n - 1)
  }

  lemma Pow256Widths()
    ensures Pow256(2) == 0x1_0000
    ensures Pow256(4) == 0x1_0000_0000
    ensures Pow256(8) == 0x1_0000_0000_0000_0000
  {
    assert Pow256(1) == 0x100;
    assert Pow256(2) == 0x1_0000;
    assert Pow256(3) == 0x100_0000;
    assert Pow256(4) == 0x1_0000_0000;
    assert Pow256(5) == 0x100_0000_0000;
    assert Pow256(6) == 0x1_0000_0000_0000;
    assert Pow256(7) == 0x100_0000_0000_0000;
  }

  /** The unsigned value of `s` with its first byte least significant. */
  function LittleValue(s: seq<u8>): (n: nat)
    ensures n < Pow256(|s|)
  {
    if s == [] then 0 else s[0] + 256 * LittleValue(s[1..])
  }

  /** The unsigned value of `s` with its first byte most significant. */
  function BigValue(s: seq<u8>): (n: nat)
    ensures n < Pow256(|s|)
  {
    if s == [] then 0 else 256 * BigValue(s[..|s| - 1]) + s[|s| - 1]
  }

  function Value(order: ByteOrder, s: seq<u8>): (n: nat)
    ensures n < Pow256(|s|)
  {
    match order
    case Little => LittleValue(s)
    case Big => BigValue(s)
  }

  /** `read_u16`: the first two bytes of `s` in the given order. */
  function ReadU16(order: ByteOrder, s: seq<u8>): u16
    requires |s| >= 2
  {
    Pow256Widths();
    Value(order, s[..2])
  }

  /** The value `read_u16` gives is the one whose 2 bytes in that order are the bytes read. */
  lemma ReadU16Encodes(order: ByteOrder, s: seq<u8>)
    requires |s| >= 2
    ensures ReadU16(order, s) < Pow256(2) && ToBytes(order, ReadU16(order, s), 2) == s[..2]
  {
    Pow256Widths();
    BytesOfValue(order, s[..2]);
  }

  function ReadU32(order: ByteOrder, s: seq<u8>): u32
    requires |s| >= 4
  {
    Pow256Widths();
    Value(order, s[..4])
  }

  /** The value `read_u32` gives is the one whose 4 bytes in that order are the bytes read. */
  lemma ReadU32Encodes(order: ByteOrder, s: seq<u8>)
    requires |s| >= 4
    ensures ReadU32(order, s) < Pow256(4) && ToBytes(order, ReadU32(order, s), 4) == s[..4]
  {
    Pow256Widths();
    BytesOfValue(order, s[..4]);
  }

  function ReadU64(order: ByteOrder, s: seq<u8>): u64
    requires |s| >= 8
  {
    Pow256Widths();
    Value(order, s[..8])
  }

  /** The value `read_u64` gives is the one whose 8 bytes in that order are the bytes read. */
  lemma ReadU64Encodes(order: ByteOrder, s: seq<u8>)
    requires |s| >= 8
    ensures ReadU64(order, s) < Pow256(8) && ToBytes(order, ReadU64(order, s), 8) == s[..8]
  {
    Pow256Widths();
    BytesOfValue(order, s[..8]);
  }

  /** Two's complement reading of the same four bytes. */
  function ReadI32(order: ByteOrder, s: seq<u8>): (r: i32)
    requires |s| >= 4
    ensures r >= 0 ==> r == ReadU32(order, s)
    ensures r < 0 ==> r + 0x1_0000_0000 == ReadU32(order, s)
  {
    var u := ReadU32(order, s);
    if u < 0x8000_0000 then u else u - 0x1_0000_0000
  }

  function ReadI64(order: ByteOrder, s: seq<u8>): (r: i64)
    requires |s| >= 8
    ensures r >= 0 ==> r == ReadU64(order, s)
    ensures r < 0 ==> r + 0x1_0000_0000_0000_0000 == ReadU64(order, s)
  {
    var u := ReadU64(order, s);
    if u < 0x8000_0000_0000_0000 then u else u - 0x1_0000_0000_0000_0000
  }

  /** The `as usize` cast of a 64-bit signed integer: the same bits, read unsigned. */
  function I64AsUsize(x: i64): u64
  {
    if x < 0 then x + 0x1_0000_0000_0000_0000 else x
  }

  lemma ReadI64AsUsize(order: ByteOrder, s: seq<u8>)
    requires |s| >= 8
    ensures I64AsUsize(ReadI64(order, s)) == ReadU64(order, s)
  {
  }

  // Writers: the inverse of the reader, used to state round trips.

  function LittleBytes(x: nat, width: nat): (s: seq<u8>)
    requires x < Pow256(width)
    ensures |s| == width
  {
    if width == 0 then [] else [x % 256] + LittleBytes(x / 256, width - 1)
  }

  function BigBytes(x: nat, width: nat): (s: seq<u8>)
    requires x < Pow256(width)
    ensures |s| == width
  {
    if width == 0 then [] else BigBytes(x / 256, width - 1) + [x % 256]
  }

  function ToBytes(order: ByteOrder, x: nat, width: nat): (s: seq<u8>)
    requires x < Pow256(width)
    ensures |s| == width
  {
    match order
    case Little => LittleBytes(x, width)
    case Big => BigBytes(x, width)
  }

  /** The bytes of a signed value in two's complement. */
  function SignedBytes(order: ByteOrder, x: int, width: nat): (s: seq<u8>)
    requires 0 <= 2 * x + Pow256(width) && 2 * x < Pow256(width)
    ensures |s| == width
  {
    ToBytes(order, if x < 0 then x + Pow256(width) else x, width)
  }

  lemma {:induction false} LittleRoundTrip(x: nat, width: nat)
    requires x < Pow256(width)
    ensures LittleValue(LittleBytes(x, width)) == x
  {
    if width > 0 {
      var s := LittleBytes(x, width);
      LittleRoundTrip(x / 256, width - 1);
      assert s[1..] == LittleBytes(x / 256, width - 1);
    }
  }

  lemma {:induction false} BigRoundTrip(x: nat, width: nat)
    requires x < Pow256(width)
    ensures BigValue(BigBytes(x, width)) == x
  {
    if width > 0 {
      var s := BigBytes(x, width);
      BigRoundTrip(x / 256, width - 1);
      assert s[..|s| - 1] == BigBytes(x / 256, width - 1);
    }
  }

  /** Reading back what was written gives the value written, in either order. */
  lemma ValueOfBytes(order: ByteOrder, x: nat, width: nat)
    requires x < Pow256(width)
    ensures Value(order, ToBytes(order, x, width)) == x
  {
    match order
    case Little => LittleRoundTrip(x, width);
    case Big => BigRoundTrip(x, width);
  }

  lemma DivModByte(q: nat, r: nat)
    requires r < 256
    ensures (r + 256 * q) % 256 == r && (r + 256 * q) / 256 == q
    ensures (256 * q + r) % 256 == r && (256 * q + r) / 256 == q
  {
  }

  lemma {:induction false} LittleBytesOfValue(s: seq<u8>)
    ensures LittleBytes(LittleValue(s), |s|) == s
  {
    if s != [] {
      LittleBytesOfValue(s[1..]);
      DivModByte(LittleValue(s[1..]), s[0]);
    }
  }

  lemma {:induction false} BigBytesOfValue(s: seq<u8>)
    ensures BigBytes(BigValue(s), |s|) == s
  {
    if s != [] {
      var init := s[..|s| - 1];
      BigBytesOfValue(init);
      DivModByte(BigValue(init), s[|s| - 1]);
      assert s == init + [s[|s| - 1]];
    }
  }

  /** Writing back what was read gives the bytes read, in either order. */
  lemma BytesOfValue(order: ByteOrder, s: seq<u8>)
    ensures ToBytes(order, Value(order, s), |s|) == s
  {
    match order
    case Little => LittleBytesOfValue(s);
    case Big => BigBytesOfValue(s);
  }

  function Reverse(s: seq<u8>): (r: seq<u8>)
    ensures |r| == |s|
  {
    if s == [] then [] else Reverse(s[1..]) + [s[0]]
  }

  /** The two orders differ exactly by reversing the bytes. */
  lemma {:induction false} BigIsReversedLittle(s: seq<u8>)
    ensures BigValue(s) == LittleValue(Reverse(s))
  {
    if s != [] {
      var r := Reverse(s);
      var t := Reverse(s[1..]);
      BigIsReversedLittle(s[1..]);
      LittleOfAppend(t, s[0]);
      BigOfPrepend(s[0], s[1..]);
      assert [s[0]] + s[1..] == s;
    }
  }

  lemma {:induction false} LittleOfAppend(t: seq<u8>, b: u8)
    ensures LittleValue(t + [b]) == LittleValue(t) + Pow256(|t|) * b
  {
    if t != [] {
      var u := t[1..];
      assert (t + [b])[1..] == u + [b];
      LittleOfAppend(u, b);
      var p := Pow256(|u|);
      calc {
        LittleValue(t + [b]);
        t[0] + 256 * LittleValue(u + [b]);
        t[0] + 256 * (LittleValue(u) + p * b);
        { assert 256 * (p * b) == (256 * p) * b; }
        t[0] + 256 * LittleValue(u) + (256 * p) * b;
      }
    }
  }

  lemma {:induction false} BigOfPrepend(b: u8, t: seq<u8>)
    ensures BigValue([b] + t) == Pow256(|t|) * b + BigValue(t)
  {
    if t != [] {
      var s := [b] + t;
      var init := t[..|t| - 1];
      assert s[..|s| - 1] == [b] + init;
      BigOfPrepend(b, init);
      var p := Pow256(|init|);
      calc {
        BigValue(s);
        256 * BigValue([b] + init) + t[|t| - 1];
        256 * (p * b + BigValue(init)) + t[|t| - 1];
        { assert 256 * (p * b) == (256 * p) * b; }
        (256 * p) * b + BigValue(t);
      }
    }
  }

  // `chunks(k)` over a slice: consecutive pieces of k bytes, the last one shorter
  // when k does not divide the length.

  function Chunks(s: seq<u8>, k: nat): (cs: seq<seq<u8>>)
    requires k > 0
    ensures forall i :: 0 <= i < |cs| ==> 0 < |cs[i]| <= k
    decreases |s|
  {
    if s == [] then []
    else if |s| <= k then [s]
    else [s[..k]] + Chunks(s[k..], k)
  }

  /** When k divides the length there are length/k chunks, chunk i being s[k*i..k*i+k]. */
  lemma MulSucc(k: nat, j: nat)
    ensures k * (j + 1) == k * j + k
  {
  }

  lemma {:induction false} ChunksCount(s: seq<u8>, k: nat, n: nat)
    requires k > 0 && |s| == k * n
    ensures |Chunks(s, k)| == n
  {
    if n > 1 {
      MulSucc(k, n - 1);
      ChunksCount(s[k..], k, n - 1);
    }
  }

  lemma {:induction false} MulMono(k: nat, a: nat, b: nat)
    requires a <= b
    ensures k * a <= k * b
    decreases b - a
  {
    if a < b {
      MulMono(k, a, b - 1);
      MulSucc(k, b - 1);
    }
  }

  lemma {:induction false} ChunkAt(s: seq<u8>, k: nat, n: nat, i: nat)
    requires k > 0 && |s| == k * n && i < n
    ensures |Chunks(s, k)| == n
    ensures k * i + k <= |s| && Chunks(s, k)[i] == s[k * i..k * i + k]
  {
    ChunksCount(s, k, n);
    MulSucc(k, i);
    MulMono(k, i + 1, n);
    if i > 0 {
      var rest := s[k..];
      MulSucc(k, n - 1);
      MulSucc(k, i - 1);
      var a, b := k * (i - 1), k * i;
      assert b == a + k;
      ChunkAt(rest, k, n - 1, i - 1);
      assert Chunks(s, k) == [s[..k]] + Chunks(rest, k);
      assert Chunks(rest, k)[i - 1] == rest[a..a + k];
      assert rest[a..a + k] == s[b..b + k];
    }
  }

  /** When k divides the length there are length/k chunks, chunk i being s[k*i..k*i+k]. */
  lemma ChunksExact(s: seq<u8>, k: nat, n: nat)
    requires k > 0 && |s| == k * n
    ensures |Chunks(s, k)| == n
    ensures forall i :: 0 <= i < n ==> k * i + k <= |s| && Chunks(s, k)[i] == s[k * i..k * i + k]
  {
    ChunksCount(s, k, n);
    forall i | 0 <= i < n
      ensures k * i + k <= |s| && Chunks(s, k)[i] == s[k * i..k * i + k]
    {
      ChunkAt(s, k, n, i);
    }
  }

  function Flatten(ss: seq<seq<u8>>): (s: seq<u8>)
  {
    if ss == [] then [] else ss[0] + Flatten(ss[1..])
  }

  /** Concatenating the chunks gives back the slice. */
  lemma {:induction false} FlattenChunks(s: seq<u8>, k: nat)
    requires k > 0
    ensures Flatten(Chunks(s, k)) == s
    decreases |s|
  {
    if |s| > k {
      FlattenChunks(s[k..], k);
      assert Chunks(s, k)[1..] == Chunks(s[k..], k);
    }
  }

  /** `chunks(4).map(read_u32).collect()` over a slice whose length is a multiple of 4. */
  function ReadU32s(order: ByteOrder, s: seq<u8>): (ws: seq<u32>)
    requires |s| % 4 == 0
    ensures |ws| == |s| / 4
    ensures forall i :: 0 <= i < |ws| ==> ws[i] == ReadU32(order, s[4 * i..4 * i + 4])
  {
    ChunksExact(s, 4, |s| / 4);
    var cs := Chunks(s, 4);
    seq(|cs|, i requires 0 <= i < |cs| => ReadU32(order, cs[i]))
  }

  /** `chunks(8).map(read_u64).collect()` over a slice whose length is a multiple of 8. */
  function ReadU64s(order: ByteOrder, s: seq<u8>): (ws: seq<u64>)
    requires |s| % 8 == 0
    ensures |ws| == |s| / 8
    ensures forall i :: 0 <= i < |ws| ==> ws[i] == ReadU64(order, s[8 * i..8 * i + 8])
  {
    ChunksExact(s, 8, |s| / 8);
    var cs := Chunks(s, 8);
    seq(|cs|, i requires 0 <= i < |cs| => ReadU64(order, cs[i]))
  }

  /** The bytes of a sequence of u64 words, each written in `order`: the
      inverse of `ReadU64s`. */
  function U64sBytes(order: ByteOrder, ws: seq<u64>): (s: seq<u8>)
    ensures |s| == 8 * |ws|
  {
    Pow256Widths();
    if ws == [] then [] else ToBytes(order, ws[0], 8) + U64sBytes(order, ws[1..])
  }

  lemma {:induction false} U64sBytesAt(order: ByteOrder, ws: seq<u64>, i: nat)
    requires i < |ws|
    ensures Pow256(8) == 0x1_0000_0000_0000_0000
    ensures U64sBytes(order, ws)[8 * i..8 * i + 8] == ToBytes(order, ws[i], 8)
  {
    Pow256Widths();
    var s := U64sBytes(order, ws);
    if i > 0 {
      U64sBytesAt(order, ws[1..], i - 1);
      assert s[8 * i..8 * i + 8] == U64sBytes(order, ws[1..])[8 * (i - 1)..8 * (i - 1) + 8];
    }
  }

  /** Decoding encoded words gives them back. */
  lemma ReadU64sOfBytes(order: ByteOrder, ws: seq<u64>)
    ensures ReadU64s(order, U64sBytes(order, ws)) == ws
  {
    var s := U64sBytes(order, ws);
    var rs := ReadU64s(order, s);
    forall i | 0 <= i < |ws|
      ensures rs[i] == ws[i]
    {
      U64sBytesAt(order, ws, i);
      var b := s[8 * i..8 * i + 8];
      assert b[..8] == b;
      ValueOfBytes(order, ws[i], 8);
    }
  }

  /** Encoding decoded words gives back the bytes. */
  lemma {:induction false} U64sBytesOfRead(order: ByteOrder, s: seq<u8>)
    requires |s| % 8 == 0
    ensures U64sBytes(order, ReadU64s(order, s)) == s
    decreases |s|
  {
    if s != [] {
      ReadU64sCons(order, s);
      U64sBytesOfRead(order, s[8..]);
      var first := s[..8];
      assert first[..8] == first;
      BytesOfValue(order, first);
      assert s == first + s[8..];
    }
  }

  /** `ReadU64s` reads the first word, then the rest. */
  lemma ReadU64sCons(order: ByteOrder, s: seq<u8>)
    requires |s| >= 8 && |s| % 8 == 0
    ensures ReadU64s(order, s) == [ReadU64(order, s)] + ReadU64s(order, s[8..])
  {
    var ws, rest := ReadU64s(order, s), ReadU64s(order, s[8..]);
    assert |ws| == |rest| + 1;
    forall i | 0 <= i < |rest|
      ensures ws[i + 1] == rest[i]
    {
      assert s[8 * (i + 1)..8 * (i + 1) + 8] == s[8..][8 * i..8 * i + 8];
    }
    assert s[0..8][..8] == s[..8];
    assert ws[0] == ReadU64(order, s);
    assert ws == [ws[0]] + ws[1..];
  }

  /** Position of the first zero byte of `s`, or |s| when there is none
      (`position(|x| *x == 0)`, or the terminator a C string scan stops at). */
  function FirstZero(s: seq<u8>): (k: nat)
    ensures k <= |s|
    ensures forall i :: 0 <= i < k ==> s[i] != 0
    ensures k < |s| ==> s[k] == 0
    ensures k == |s| <==> 0 !in s
  {
    if s == [] then 0 else if s[0] == 0 then 0 else 1 + FirstZero(s[1..])
  }

  /** Reading the two's complement bytes of a signed 64-bit value gives it back. */
  lemma ReadI64OfSignedBytes(order: ByteOrder, x: i64)
    ensures Pow256(8) == 0x1_0000_0000_0000_0000
    ensures ReadI64(order, SignedBytes(order, x, 8)) == x
  {
    Pow256Widths();
    var s := SignedBytes(order, x, 8);
    ValueOfBytes(order, if x < 0 then x + Pow256(8) else x, 8);
    assert s[..8] == s;
  }

  /** Reading the two's complement bytes of a signed 32-bit value gives it back. */
  lemma ReadI32OfSignedBytes(order: ByteOrder, x: i32)
    ensures Pow256(4) == 0x1_0000_0000
    ensures ReadI32(order, SignedBytes(order, x, 4)) == x
  {
    Pow256Widths();
    var s := SignedBytes(order, x, 4);
    ValueOfBytes(order, if x < 0 then x + Pow256(4) else x, 4);
    assert s[..4] == s;
  }
}
