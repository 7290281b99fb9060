/** Bytes and the lower-case hexadecimal text that both programs write for them. */
module Bytes {
  type Byte = x: int | 0 <= x < 256
}

module Hex {
  import opened Bytes
  import opened Text

  predicate IsHexChar(c: char) {
    '0' <= c <= '9' || 'a' <= c <= 'f'
  }

  predicate AllHex(s: string) {
    forall i :: 0 <= i < |s| ==> IsHexChar(s[i])
  }

  function HexChar(d: nat): (c: char)
    requires d < 16
    ensures IsHexChar(c)
  {
    if d < 10 then ('0' as int + d) as char else ('a' as int + d - 10) as char
  }

  function HexValue(c: char): (d: nat)
    requires IsHexChar(c)
    ensures d < 16 && HexChar(d) == c
  {
    if c <= '9' then c as int - '0' as int else c as int - 'a' as int + 10
  }

  function HighDigit(b: Byte): (c: char)
    ensures IsHexChar(c)
  {
    HexChar(b / 16)
  }

  function LowDigit(b: Byte): (c: char)
    ensures IsHexChar(c)
  {
    HexChar(b % 16)
  }

  /** Two digits for each byte, the high half first. */
  function ToHex(bytes: seq<Byte>): (s: string)
    ensures |s| == 2 * |bytes| && |s| % 2 == 0 && AllHex(s)
  {
    if bytes == [] then ""
    else
      var n := |bytes| - 1;
      ToHex(bytes[..n]) + [HighDigit(bytes[n]), LowDigit(bytes[n])]
  }

  function PairValue(high: char, low: char): Byte
    requires IsHexChar(high) && IsHexChar(low)
  {
    16 * HexValue(high) + HexValue(low)
  }

  function FromHex(s: string): (bytes: seq<Byte>)
    requires AllHex(s) && |s| % 2 == 0
    ensures 2 * |bytes| == |s|
  {
    if s == "" then []
    else
      var n := |s| - 2;
      FromHex(s[..n]) + [PairValue(s[n], s[n + 1])]
  }

  /** Every byte is written with the digits of its sixteens and its ones. */
  lemma HexDigits(b: Byte)
    ensures ToHex([b]) == ["0123456789abcdef"[b / 16], "0123456789abcdef"[b % 16]]
  {
    assert [b][..0] == [];
    DigitOf(b / 16);
    DigitOf(b % 16);
  }

  lemma DigitOf(d: nat)
    requires d < 16
    ensures HexChar(d) == "0123456789abcdef"[d]
  {
  }

  lemma ByteOfPair(b: Byte)
    ensures PairValue(HighDigit(b), LowDigit(b)) == b
  {
    assert forall d: nat :: d < 16 ==> HexValue(HexChar(d)) == d;
  }

  lemma PairOfByte(high: char, low: char)
    requires IsHexChar(high) && IsHexChar(low)
    ensures HighDigit(PairValue(high, low)) == high && LowDigit(PairValue(high, low)) == low
  {
    assert PairValue(high, low) / 16 == HexValue(high) && PairValue(high, low) % 16 == HexValue(low);
  }

  lemma LastByte(front: seq<Byte>, b: Byte)
    ensures ToHex(front + [b]) == ToHex(front) + [HighDigit(b), LowDigit(b)]
  {
    assert (front + [b])[..|front|] == front;
  }

  lemma LastPair(front: string, high: char, low: char)
    requires AllHex(front) && |front| % 2 == 0 && IsHexChar(high) && IsHexChar(low)
    ensures AllHex(front + [high, low]) && |front + [high, low]| % 2 == 0
    ensures FromHex(front + [high, low]) == FromHex(front) + [PairValue(high, low)]
  {
    hide IsHexChar, PairValue;
    assert (front + [high, low])[..|front|] == front;
  }

  lemma {:induction false} HexRoundTrip(bytes: seq<Byte>)
    ensures FromHex(ToHex(bytes)) == bytes
  {
    hide HighDigit, LowDigit, PairValue, ToHex, FromHex, IsHexChar;
    if bytes == [] {
      NoDigits();
    } else {
      var n := |bytes| - 1;
      HexRoundTrip(bytes[..n]);
      ByteOfPair(bytes[n]);
      LastByte(bytes[..n], bytes[n]);
      assert bytes == bytes[..n] + [bytes[n]];
      LastPair(ToHex(bytes[..n]), HighDigit(bytes[n]), LowDigit(bytes[n]));
    }
  }

  lemma NoDigits()
    ensures ToHex([]) == "" && FromHex("") == []
  {
  }

  lemma {:induction false} HexTextRoundTrip(s: string)
    requires AllHex(s) && |s| % 2 == 0
    ensures ToHex(FromHex(s)) == s
  {
    hide HighDigit, LowDigit, PairValue, ToHex, FromHex, IsHexChar;
    if s == "" {
      NoDigits();
    } else {
      var n := |s| - 2;
      HexTextRoundTrip(s[..n]);
      PairOfByte(s[n], s[n + 1]);
      assert s == s[..n] + [s[n], s[n + 1]];
      LastPair(s[..n], s[n], s[n + 1]);
      LastByte(FromHex(s[..n]), PairValue(s[n], s[n + 1]));
    }
  }

  lemma HexIsLowerAndTrimmed(s: string, space: char -> bool)
    requires AllHex(s)
    requires forall c :: space(c) ==> !IsHexChar(c)
    ensures Lower(s) == s && Trim(s, space) == s
  {
    TrimUnspaced(s, space);
  }
}
