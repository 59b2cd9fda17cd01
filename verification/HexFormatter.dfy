/** The upper-case hexadecimal text of a frame, and its inverse. */
module HexFormatter {
  import opened Words
  import opened Protocol

  const HEXADECIMAL_FRAME_LENGTH: nat := 68
  const HEXADECIMAL_DIGITS: string := "0123456789ABCDEF"

  function HighDigit(b: byte): char {
    HEXADECIMAL_DIGITS[(b >> 4) as int]
  }

  function LowDigit(b: byte): char {
    HEXADECIMAL_DIGITS[(b & 0x0F) as int]
  }

  function Hex(bytes: seq<byte>): (s: string)
    ensures |s| == 2 * |bytes|
  {
    if |bytes| == 0 then "" else Hex(bytes[..|bytes| - 1]) + [HighDigit(bytes[|bytes| - 1]), LowDigit(bytes[|bytes| - 1])]
  }

  method Format(frame: array<byte>) returns (output: array<char>)
    requires frame.Length == FRAME_SIZE
    ensures fresh(output) && output.Length == HEXADECIMAL_FRAME_LENGTH + 1
    ensures output[..HEXADECIMAL_FRAME_LENGTH] == Hex(frame[..])
    ensures output[HEXADECIMAL_FRAME_LENGTH] == '\0'
  {
    hide HighDigit, LowDigit;
    output := new char[HEXADECIMAL_FRAME_LENGTH + 1];
    for index := 0 to frame.Length
      invariant output[..2 * index] == Hex(frame[..index])
    {
      var b := frame[index];
      output[index * 2] := HighDigit(b);
      output[index * 2 + 1] := LowDigit(b);
      assert frame[..index + 1] == frame[..index] + [b];
      assert frame[..index + 1][..index] == frame[..index];
      assert output[..2 * (index + 1)] == output[..2 * index] + [HighDigit(b), LowDigit(b)];
    }
    output[HEXADECIMAL_FRAME_LENGTH] := '\0';
    assert frame[..frame.Length] == frame[..];
  }

  /** Byte `k` of the frame is digits 2k and 2k + 1 of the text: its quotient and its remainder by sixteen. */
  lemma {:induction false} HexDigitAt(bytes: seq<byte>, k: nat)
    requires k < |bytes|
    ensures var b := bytes[k] as int;
            && Hex(bytes)[2 * k] == "0123456789ABCDEF"[b / 16] && Hex(bytes)[2 * k + 1] == "0123456789ABCDEF"[b % 16]
    decreases |bytes|
  {
    hide HighDigit, LowDigit;
    var n := |bytes| - 1;
    if k < n {
      HexDigitAt(bytes[..n], k);
    } else {
      DigitsAreNumbers(bytes[k]);
    }
  }

  lemma DigitsAreNumbers(b: byte)
    ensures HighDigit(b) == "0123456789ABCDEF"[b as int / 16] && LowDigit(b) == "0123456789ABCDEF"[b as int % 16]
  {
    NibbleNumbers(b);
    assert b as int / 16 == (b >> 4) as int && b as int % 16 == (b & 0x0F) as int;
  }

  lemma NibbleNumbers(b: byte)
    ensures b as int == 16 * ((b >> 4) as int) + ((b & 0x0F) as int) && (b >> 4) as int < 16 && (b & 0x0F) as int < 16
  {
  }

  // ----- Reading it back

  predicate IsHexDigit(c: char) {
    '0' <= c <= '9' || 'A' <= c <= 'F'
  }

  function DigitValue(c: char): (v: byte)
    requires IsHexDigit(c)
  {
    match c
    case '0' => 0
    case '1' => 1
    case '2' => 2
    case '3' => 3
    case '4' => 4
    case '5' => 5
    case '6' => 6
    case '7' => 7
    case '8' => 8
    case '9' => 9
    case 'A' => 10
    case 'B' => 11
    case 'C' => 12
    case 'D' => 13
    case 'E' => 14
    case _ => 15
  }

  function ByteOfDigits(c: char, d: char): byte
    requires IsHexDigit(c) && IsHexDigit(d)
  {
    (DigitValue(c) << 4) | DigitValue(d)
  }

  predicate AllHex(s: string) {
    forall i :: 0 <= i < |s| ==> IsHexDigit(s[i])
  }

  /** Python's `bytes.fromhex` on an even number of upper-case digits. */
  function Unhex(s: string): (bytes: seq<byte>)
    requires AllHex(s) && |s| % 2 == 0
    ensures 2 * |bytes| == |s|
  {
    if |s| == 0 then []
    else Unhex(s[..|s| - 2]) + [ByteOfDigits(s[|s| - 2], s[|s| - 1])]
  }

  lemma NibbleValue(n: byte)
    requires n < 16
    ensures n as int < 16
    ensures IsHexDigit(HEXADECIMAL_DIGITS[n as int]) && DigitValue(HEXADECIMAL_DIGITS[n as int]) == n
  {
    assert n == 0 || n == 1 || n == 2 || n == 3 || n == 4 || n == 5 || n == 6 || n == 7
        || n == 8 || n == 9 || n == 10 || n == 11 || n == 12 || n == 13 || n == 14 || n == 15;
  }

  lemma DigitOfValue(c: char)
    requires IsHexDigit(c)
    ensures DigitValue(c) < 16 && DigitValue(c) as int < 16 && HEXADECIMAL_DIGITS[DigitValue(c) as int] == c
  {
  }

  lemma Nibbles(b: byte)
    ensures b >> 4 < 16 && b & 0x0F < 16 && ((b >> 4) << 4) | (b & 0x0F) == b
  {
  }

  lemma JoinedNibbles(p: byte, q: byte)
    requires p < 16 && q < 16
    ensures ((p << 4) | q) >> 4 == p && ((p << 4) | q) & 0x0F == q
  {
  }

  lemma DigitsOfByte(b: byte)
    ensures IsHexDigit(HighDigit(b)) && IsHexDigit(LowDigit(b))
    ensures ByteOfDigits(HighDigit(b), LowDigit(b)) == b
  {
    hide DigitValue, IsHexDigit;
    Nibbles(b);
    NibbleValue(b >> 4);
    NibbleValue(b & 0x0F);
  }

  lemma HexOfNothing(bytes: seq<byte>)
    requires bytes == []
    ensures Hex(bytes) == [] && Unhex([]) == []
  {
  }

  lemma HexSnoc(bytes: seq<byte>, b: byte)
    ensures Hex(bytes + [b]) == Hex(bytes) + [HighDigit(b), LowDigit(b)]
  {
    hide HighDigit, LowDigit;
    assert (bytes + [b])[..|bytes|] == bytes;
  }

  lemma UnhexSnoc(s: string, c: char, d: char)
    requires AllHex(s) && |s| % 2 == 0 && IsHexDigit(c) && IsHexDigit(d) && AllHex(s + [c, d])
    ensures Unhex(s + [c, d]) == Unhex(s) + [ByteOfDigits(c, d)]
  {
    hide Unhex, AllHex, IsHexDigit, ByteOfDigits;
    var t := s + [c, d];
    UnhexLast(t);
    assert t[..|t| - 2] == s && t[|t| - 2] == c && t[|t| - 1] == d;
  }

  lemma AllHexSnoc(s: string, c: char, d: char)
    requires AllHex(s) && IsHexDigit(c) && IsHexDigit(d)
    ensures AllHex(s + [c, d])
  {
    hide IsHexDigit;
  }

  lemma UnhexLast(s: string)
    requires AllHex(s) && |s| % 2 == 0 && |s| > 0
    ensures Unhex(s) == Unhex(s[..|s| - 2]) + [ByteOfDigits(s[|s| - 2], s[|s| - 1])]
  {
    hide IsHexDigit, ByteOfDigits;
  }

  /** Formatting is undone by reading: nothing of a frame is lost in its text. */
  lemma {:induction false} UnhexOfHex(bytes: seq<byte>)
    ensures AllHex(Hex(bytes)) && Unhex(Hex(bytes)) == bytes
    decreases |bytes|
  {
    hide Hex, Unhex, ByteOfDigits, IsHexDigit, HighDigit, LowDigit;
    if |bytes| == 0 {
      HexOfNothing(bytes);
    } else {
      var init, b := bytes[..|bytes| - 1], bytes[|bytes| - 1];
      UnhexOfHex(init);
      DigitsOfByte(b);
      HexSnoc(init, b);
      AllHexSnoc(Hex(init), HighDigit(b), LowDigit(b));
      UnhexSnoc(Hex(init), HighDigit(b), LowDigit(b));
      assert bytes == init + [b];
    }
  }

  lemma DigitsOfJoined(c: char, d: char)
    requires IsHexDigit(c) && IsHexDigit(d)
    ensures HighDigit(ByteOfDigits(c, d)) == c
    ensures LowDigit(ByteOfDigits(c, d)) == d
  {
    hide DigitValue, IsHexDigit;
    DigitOfValue(c);
    DigitOfValue(d);
    JoinedNibbles(DigitValue(c), DigitValue(d));
  }

  /** Reading is undone by formatting: the upper-case texts are in bijection with the byte strings. */
  lemma {:induction false} HexOfUnhex(s: string)
    requires AllHex(s) && |s| % 2 == 0
    ensures Hex(Unhex(s)) == s
    decreases |s|
  {
    hide Hex, Unhex, ByteOfDigits, IsHexDigit, HighDigit, LowDigit;
    if |s| == 0 {
      HexOfNothing([]);
    } else {
      var init, c, d := s[..|s| - 2], s[|s| - 2], s[|s| - 1];
      assert s == init + [c, d];
      HexOfUnhex(init);
      DigitsOfJoined(c, d);
      UnhexSnoc(init, c, d);
      HexSnoc(Unhex(init), ByteOfDigits(c, d));
    }
  }
}
