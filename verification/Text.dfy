// Numbers and byte strings in text form.
module Text {
  import opened Wrappers
  import opened Bytes

  function Digit(d: nat): char
    requires d < 10
  {
    '0' + d as char
  }

  function Decimal(v: nat): (s: string)
    ensures |s| > 0 && forall i :: 0 <= i < |s| ==> '0' <= s[i] <= '9'
  {
    if v < 10 then [Digit(v)] else Decimal(v / 10) + [Digit(v % 10)]
  }

  // The number a text of digits stands for, none for any other text.
  function ParseDigits(s: string): Option<nat>
  {
    if s == [] then Some(0)
    else
      var rest, last := ParseDigits(s[..|s| - 1]), s[|s| - 1];
      if rest.None? || !('0' <= last <= '9') then None else Some(10 * rest.value + (last - '0') as nat)
  }

  function StripPrefix(s: string, prefix: string): Option<string> {
    if prefix <= s then Some(s[|prefix|..]) else None
  }

  function Before(s: string, mark: char): string {
    if s == [] || s[0] == mark then [] else [s[0]] + Before(s[1..], mark)
  }

  // A leading sign is accepted and ignored when positive, as the source's integer parser does.
  function ParseInt(s: string): Option<int> {
    var digits := if s != [] && (s[0] == '+' || s[0] == '-') then s[1..] else s;
    var value := ParseDigits(digits);
    if digits == [] || value.None? then None
    else Some(if s[0] == '-' then 0 - value.value else value.value)
  }

  lemma {:induction false} ParseDecimal(v: nat)
    ensures ParseDigits(Decimal(v)) == Some(v)
  {
    if v < 10 {
      assert Decimal(v)[..0] == [];
      assert ParseDigits(Decimal(v)[..0]) == Some(0);
    } else {
      ParseDecimal(v / 10);
      assert Decimal(v)[..|Decimal(v)| - 1] == Decimal(v / 10);
    }
  }

  lemma {:induction false} BeforeMark(s: string, mark: char, rest: string)
    requires mark !in s
    ensures Before(s + [mark] + rest, mark) == s
  {
    if s == [] {
      assert (s + [mark] + rest)[0] == mark;
    } else {
      BeforeMark(s[1..], mark, rest);
      assert (s + [mark] + rest)[1..] == s[1..] + [mark] + rest;
    }
  }

  // ----- hexadecimal

  function HexDigit(d: nat): char
    requires d < 16
  {
    if d < 10 then '0' + d as char else 'a' + (d - 10) as char
  }

  // Letters of either case are digits.
  function HexValue(c: char): (value: Option<nat>)
    ensures value.Some? ==> value.value < 16
  {
    if '0' <= c <= '9' then Some((c - '0') as nat)
    else if 'a' <= c <= 'f' then Some((c - 'a') as nat + 10)
    else if 'A' <= c <= 'F' then Some((c - 'A') as nat + 10)
    else None
  }

  function HexEncode(bytes: seq<byte>): string {
    if bytes == [] then []
    else [HexDigit(bytes[0] / 16), HexDigit(bytes[0] % 16)] + HexEncode(bytes[1..])
  }

  function HexDecode(s: string): Option<seq<byte>> {
    if s == [] then Some([])
    else if |s| == 1 then None
    else
      var high, low, rest := HexValue(s[0]), HexValue(s[1]), HexDecode(s[2..]);
      if high.None? || low.None? || rest.None? then None else Some([HexByte(high.value, low.value)] + rest.value)
  }

  function HexByte(high: nat, low: nat): byte
    requires high < 16 && low < 16
  {
    16 * high + low
  }

  predicate UpperCase(c: char) {
    'A' <= c <= 'F'
  }

  lemma DigitRoundTrip(d: nat)
    requires d < 16
    ensures HexValue(HexDigit(d)) == Some(d)
  {
  }

  lemma DigitCanonicalIff(c: char)
    requires HexValue(c).Some?
    ensures HexDigit(HexValue(c).value) == c <==> !UpperCase(c)
  {
  }

  lemma {:induction false} HexRoundTrip(bytes: seq<byte>)
    ensures HexDecode(HexEncode(bytes)) == Some(bytes)
  {
    if bytes != [] {
      HexRoundTrip(bytes[1..]);
      assert HexEncode(bytes)[2..] == HexEncode(bytes[1..]);
      DigitRoundTrip(bytes[0] / 16);
      DigitRoundTrip(bytes[0] % 16);
      assert HexByte(bytes[0] / 16, bytes[0] % 16) == bytes[0];
      assert bytes == [bytes[0]] + bytes[1..];
    }
  }

  // A text that decodes is the encoding of its bytes exactly when it has no upper-case digit.
  lemma {:induction false} CanonicalIff(s: string)
    requires HexDecode(s).Some?
    ensures HexEncode(HexDecode(s).value) == s <==> forall i :: 0 <= i < |s| ==> !UpperCase(s[i])
  {
    if s != [] {
      CanonicalIff(s[2..]);
      DigitCanonicalIff(s[0]);
      DigitCanonicalIff(s[1]);
      var bytes := HexDecode(s).value;
      assert bytes[1..] == HexDecode(s[2..]).value;
      hide HexValue, HexDigit, UpperCase;
      assert s == [s[0], s[1]] + s[2..];
      forall i | 0 <= i < |s[2..]|
        ensures s[2..][i] == s[i + 2]
      {
      }
      if forall i :: 0 <= i < |s| ==> !UpperCase(s[i]) {
        assert forall i :: 0 <= i < |s[2..]| ==> !UpperCase(s[2..][i]);
      }
      if HexEncode(bytes) == s {
        assert HexEncode(bytes)[2..] == s[2..];
        assert forall i :: 2 <= i < |s| ==> s[i] == s[2..][i - 2];
      }
    }
  }
}
