/**
 * Rendering of integers the way Python's str.format does it for the two
 * format specifications the VM templates use: `{0:02X}` (upper-case
 * hexadecimal, zero padded to two characters, the sign counting towards the
 * width) and `{0:d}` (decimal). Each rendering comes with the parser that
 * reads it back; `ParseInt` is also the model of Python's `int()` on a string.
 */
module Format {
  import opened Wrappers

  predicate IsHexDigit(c: char) {
    '0' <= c <= '9' || 'A' <= c <= 'F'
  }

  predicate IsDecDigit(c: char) {
    '0' <= c <= '9'
  }

  /** A non-empty string of upper-case hexadecimal digits. */
  predicate AllHexDigits(s: string) {
    |s| > 0 && forall i :: 0 <= i < |s| ==> IsHexDigit(s[i])
  }

  /** A non-empty string of decimal digits. */
  predicate AllDecDigits(s: string) {
    |s| > 0 && forall i :: 0 <= i < |s| ==> IsDecDigit(s[i])
  }

  function HexDigit(d: nat): (c: char)
    requires d < 16
    ensures IsHexDigit(c)
  {
    if d < 10 then ('0' as int + d) as char else ('A' as int + d - 10) as char
  }

  /** The value of an upper-case hexadecimal digit. */
  function HexValue(c: char): (v: nat)
    requires IsHexDigit(c)
    ensures v < 16
  {
    if c <= '9' then c as int - '0' as int else c as int - 'A' as int + 10
  }

  function DecDigit(d: nat): (c: char)
    requires d < 10
    ensures IsDecDigit(c)
  {
    ('0' as int + d) as char
  }

  function DecValue(c: char): (v: nat)
    requires IsDecDigit(c)
    ensures v < 10
  {
    c as int - '0' as int
  }

  /** The shortest upper-case hexadecimal spelling of `n`. */
  function HexDigits(n: nat): (s: string)
    ensures |s| >= 1
    ensures forall i :: 0 <= i < |s| ==> IsHexDigit(s[i])
    ensures n < 16 <==> |s| == 1
  {
    if n < 16 then [HexDigit(n)] else HexDigits(n / 16) + [HexDigit(n % 16)]
  }

  /** The shortest decimal spelling of `n`. */
  function DecDigits(n: nat): (s: string)
    ensures |s| >= 1
    ensures forall i :: 0 <= i < |s| ==> IsDecDigit(s[i])
  {
    if n < 10 then [DecDigit(n)] else DecDigits(n / 10) + [DecDigit(n % 10)]
  }

  /** Python's `'{0:02X}'.format(n)`: at least two characters, the sign counting towards the width. */
  function FormatHex02(n: int): (s: string)
    ensures |s| >= 2
    ensures n >= 0 ==> forall i :: 0 <= i < |s| ==> IsHexDigit(s[i])
    ensures n < 0 ==> s[0] == '-' && forall i :: 1 <= i < |s| ==> IsHexDigit(s[i])
  {
    if n < 0 then "-" + HexDigits(-n)
    else var d := HexDigits(n); if |d| < 2 then "0" + d else d
  }

  /** Python's `'{0:d}'.format(n)`. */
  function FormatDecimal(n: int): (s: string)
    ensures |s| >= 1
    ensures n >= 0 ==> AllDecDigits(s)
    ensures n < 0 ==> |s| >= 2 && s[0] == '-' && AllDecDigits(s[1..])
  {
    if n < 0 then "-" + DecDigits(-n) else DecDigits(n)
  }

  /** Reads a non-empty string of upper-case hexadecimal digits. */
  function ParseHex(s: string): (r: Option<nat>)
    ensures r.Some? <==> AllHexDigits(s)
  {
    if |s| == 0 || !IsHexDigit(s[|s| - 1]) then None
    else if |s| == 1 then Some(HexValue(s[0]))
    else match ParseHex(s[..|s| - 1])
      case None => None
      case Some(v) => Some(v * 16 + HexValue(s[|s| - 1]))
  }

  /** Reads a non-empty string of decimal digits (leading zeros allowed). */
  function ParseDigits(s: string): (r: Option<nat>)
    ensures r.Some? <==> AllDecDigits(s)
  {
    if |s| == 0 || !IsDecDigit(s[|s| - 1]) then None
    else if |s| == 1 then Some(DecValue(s[0]))
    else match ParseDigits(s[..|s| - 1])
      case None => None
      case Some(v) => Some(v * 10 + DecValue(s[|s| - 1]))
  }

  /** Python's `int(s)` on an optionally signed string of ASCII digits; None where it raises ValueError. */
  function ParseInt(s: string): (r: Option<int>)
    ensures r.Some? <==> |s| > 0 && if s[0] in "+-" then AllDecDigits(s[1..]) else AllDecDigits(s)
    ensures r.Some? && r.value < 0 ==> s[0] == '-'
  {
    if |s| > 0 && s[0] == '-' then
      match ParseDigits(s[1..])
      case None => None
      case Some(v) => var magnitude: int := v; Some(-magnitude)
    else if |s| > 0 && s[0] == '+' then
      match ParseDigits(s[1..])
      case None => None
      case Some(v) => Some(v)
    else
      match ParseDigits(s)
      case None => None
      case Some(v) => Some(v)
  }

  lemma {:induction false} HexDigitsRoundTrip(n: nat)
    ensures ParseHex(HexDigits(n)) == Some(n)
  {
    if n >= 16 {
      var s := HexDigits(n);
      HexDigitsRoundTrip(n / 16);
      assert s[..|s| - 1] == HexDigits(n / 16);
    }
  }

  lemma {:induction false} DecDigitsRoundTrip(n: nat)
    ensures ParseDigits(DecDigits(n)) == Some(n)
  {
    if n >= 10 {
      var s := DecDigits(n);
      DecDigitsRoundTrip(n / 10);
      assert s[..|s| - 1] == DecDigits(n / 10);
    }
  }

  /** The last octet of a MAC address reads back as the id it was rendered from. */
  lemma Hex02RoundTrip(n: nat)
    ensures ParseHex(FormatHex02(n)) == Some(n)
    ensures forall i :: 0 <= i < |FormatHex02(n)| ==> IsHexDigit(FormatHex02(n)[i])
    ensures n < 256 ==> |FormatHex02(n)| == 2
  {
    HexDigitsRoundTrip(n);
    var d := HexDigits(n);
    if |d| < 2 {
      var s := "0" + d;
      assert s[..|s| - 1] == "0";
    }
    if 16 <= n < 256 {
      assert |HexDigits(n / 16)| == 1;
    }
  }

  /** The final octet of an IP address reads back as the id it was rendered from. */
  lemma DecimalRoundTrip(n: int)
    ensures ParseInt(FormatDecimal(n)) == Some(n)
  {
    var s := FormatDecimal(n);
    if n < 0 {
      DecDigitsRoundTrip(-n);
      assert s[0] == '-' && s[1..] == DecDigits(-n);
    } else {
      DecDigitsRoundTrip(n);
      assert IsDecDigit(s[0]);
    }
  }

  /** Different ids render to different two-digit hex octets, and to different decimal octets. */
  lemma RenderingsInjective(m: nat, n: nat)
    ensures FormatHex02(m) == FormatHex02(n) ==> m == n
    ensures FormatDecimal(m) == FormatDecimal(n) ==> m == n
  {
    Hex02RoundTrip(m);
    Hex02RoundTrip(n);
    DecimalRoundTrip(m);
    DecimalRoundTrip(n);
  }
}
