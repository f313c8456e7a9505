/** The text that the decoders put in the `got` half of a bad-value error:
    decimal numbers (`to_string`, `{}`) and the debug rendering of a byte
    slice (`{:?}`), e.g. `[1, 2, 255]`. */
module Fmt {
  import opened Bytes

  function Digit(d: nat): (c: char)
    requires d < 10
    ensures '0' <= c <= '9'
  {
    "0123456789"[d]
  }

  function DigitValue(c: char): nat
  {
    if '0' <= c <= '9' then (c as int) - ('0' as int) else 0
  }

  /** Decimal rendering of a natural number, without leading zeros. */
  function Dec(n: nat): (s: string)
    ensures |s| >= 1
    ensures forall i :: 0 <= i < |s| ==> '0' <= s[i] <= '9'
    ensures s[0] == '0' ==> n == 0
  {
    if n < 10 then [Digit(n)] else Dec(n / 10) + [Digit(n % 10)]
  }

  /** The value of a string of decimal digits. */
  function ParseDec(s: string): nat
  {
    if s == [] then 0 else 10 * ParseDec(s[..|s| - 1]) + DigitValue(s[|s| - 1])
  }

  /** The decimal rendering can be read back: `got` texts such as a rejected
      type code name the number itself. */
  lemma DigitRoundTrip(d: nat)
    requires d < 10
    ensures DigitValue(Digit(d)) == d
  {
  }

  lemma {:induction false} DecRoundTrip(n: nat)
    ensures ParseDec(Dec(n)) == n
  {
    var s := Dec(n);
    DigitRoundTrip(n % 10);
    if n < 10 {
      assert s[..|s| - 1] == [];
    } else {
      DecRoundTrip(n / 10);
      assert s[..|s| - 1] == Dec(n / 10);
      assert s[|s| - 1] == Digit(n % 10);
      assert n == 10 * (n / 10) + n % 10;
    }
  }

  lemma DecInjective(m: nat, n: nat)
    ensures Dec(m) == Dec(n) ==> m == n
  {
    DecRoundTrip(m);
    DecRoundTrip(n);
  }

  /** The items of a byte slice separated by ", ". */
  function JoinBytes(s: seq<u8>): string
  {
    if s == [] then ""
    else if |s| == 1 then Dec(s[0])
    else Dec(s[0]) + ", " + JoinBytes(s[1..])
  }

  /** `{:?}` of a byte slice. */
  function DebugBytes(s: seq<u8>): string
  {
    "[" + JoinBytes(s) + "]"
  }

  /** `format!["{} B: {:?}", data.len(), data]`, the usual `got` text. */
  function Preview(s: seq<u8>): string
  {
    Dec(|s|) + " B: " + DebugBytes(s)
  }

  /** The items of a byte slice are digits, commas and spaces, and there are
      none exactly when the slice is empty. */
  lemma {:induction false} JoinBytesShape(s: seq<u8>)
    ensures JoinBytes(s) == "" <==> s == []
    ensures forall i :: 0 <= i < |JoinBytes(s)| ==>
      '0' <= JoinBytes(s)[i] <= '9' || JoinBytes(s)[i] == ',' || JoinBytes(s)[i] == ' '
  {
    if |s| > 1 {
      JoinBytesShape(s[1..]);
    }
  }

  /** The `{:?}` text is bracketed, is "[]" exactly for no bytes, and holds no
      bracket inside. */
  lemma DebugBytesShape(s: seq<u8>)
    ensures var d := DebugBytes(s);
      && |d| >= 2 && d[0] == '[' && d[|d| - 1] == ']'
      && (d == "[]" <==> s == [])
      && forall i :: 0 < i < |d| - 1 ==> d[i] != '[' && d[i] != ']'
  {
    JoinBytesShape(s);
    var d := DebugBytes(s);
    assert d[1..|d| - 1] == JoinBytes(s);
  }

  /** The number of decimal digits at the front of a text. */
  function LeadingDigits(t: string): (k: nat)
    ensures k <= |t|
  {
    if t == [] || !('0' <= t[0] <= '9') then 0 else 1 + LeadingDigits(t[1..])
  }

  lemma {:induction false} LeadingDigitsOfAppend(a: string, b: string)
    requires forall i :: 0 <= i < |a| ==> '0' <= a[i] <= '9'
    requires b != [] && !('0' <= b[0] <= '9')
    ensures LeadingDigits(a + b) == |a|
  {
    if a != [] {
      assert (a + b)[1..] == a[1..] + b;
      LeadingDigitsOfAppend(a[1..], b);
    }
  }

  /** The length can be read back from the digits at the front of a preview,
      which are followed by " B: " and the `{:?}` text of the bytes. */
  lemma PreviewNamesLength(s: seq<u8>)
    ensures var p := Preview(s);
      var k := LeadingDigits(p);
      && k + 4 <= |p|
      && ParseDec(p[..k]) == |s|
      && p[k..k + 4] == " B: "
      && p[k + 4..] == DebugBytes(s)
  {
    var n := Dec(|s|);
    LeadingDigitsOfAppend(n, " B: " + DebugBytes(s));
    DecRoundTrip(|s|);
    assert Preview(s) == n + (" B: " + DebugBytes(s));
  }
}
