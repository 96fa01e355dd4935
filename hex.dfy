/** Hexadecimal text and bytes, as the codec uses them from Python's
    built-ins: `hex(n)[2:]`, `str.zfill(2)`, `int(s, 16)`, and the
    Base 16 conversions `a2b_hex` (text to raw bytes) and `b2a_hex`
    (raw bytes to lowercase text), section 8 of RFC 4648. */
module Hex {
  import opened Errors

  type byte = b: int | 0 <= b < 256

  predicate IsHexDigit(c: char) {
    '0' <= c <= '9' || 'a' <= c <= 'f' || 'A' <= c <= 'F'
  }

  predicate IsLowerHexDigit(c: char) {
    '0' <= c <= '9' || 'a' <= c <= 'f'
  }

  predicate AllHex(s: string) {
    forall i :: 0 <= i < |s| ==> IsHexDigit(s[i])
  }

  predicate AllLowerHex(s: string) {
    forall i :: 0 <= i < |s| ==> IsLowerHexDigit(s[i])
  }

  function DigitValue(c: char): (v: nat)
    requires IsHexDigit(c)
    ensures v < 16
  {
    if '0' <= c <= '9' then c as int - '0' as int
    else if 'a' <= c <= 'f' then c as int - 'a' as int + 10
    else c as int - 'A' as int + 10
  }

  /** The lowercase digit for a value below 16. */
  function Digit(v: nat): (c: char)
    requires v < 16
    ensures IsLowerHexDigit(c) && DigitValue(c) == v
  {
    if v < 10 then ('0' as int + v) as char else ('a' as int + v - 10) as char
  }

  /** The sixteen digits `b2a_hex` writes. */
  lemma DigitTable()
    ensures Digit(0) == '0' && Digit(1) == '1' && Digit(2) == '2' && Digit(3) == '3'
    ensures Digit(4) == '4' && Digit(5) == '5' && Digit(6) == '6' && Digit(7) == '7'
    ensures Digit(8) == '8' && Digit(9) == '9' && Digit(10) == 'a' && Digit(11) == 'b'
    ensures Digit(12) == 'c' && Digit(13) == 'd' && Digit(14) == 'e' && Digit(15) == 'f'
  {
  }

  function ToLower(c: char): char {
    if 'A' <= c <= 'Z' then (c as int + 32) as char else c
  }

  function Lower(s: string): string {
    if s == [] then [] else [ToLower(s[0])] + Lower(s[1..])
  }

  /** `hex(n)[2:]`: the lowercase digits of n, most significant first,
      without leading zeros ("0" for zero). */
  function HexDigits(n: nat): string
    decreases n
  {
    if n < 16 then [Digit(n)] else HexDigits(n / 16) + [Digit(n % 16)]
  }

  /** `s.zfill(2)` for text without a sign: left-pad with '0' to width 2. */
  function ZFill2(s: string): string {
    if |s| >= 2 then s else seq(2 - |s|, _ => '0') + s
  }

  /** The numeric value of a string of hex digits, most significant first. */
  function Value(s: string): nat
    requires AllHex(s)
  {
    if s == [] then 0 else Value(s[..|s| - 1]) * 16 + DigitValue(s[|s| - 1])
  }

  /** Two hex digits: the text of one byte, in either case. */
  predicate IsPair(s: string) {
    |s| == 2 && AllHex(s)
  }

  /** Text that `int(s, 16)` accepts: a non-empty run of hex digits. */
  predicate IsHexText(s: string) {
    s != [] && AllHex(s)
  }

  /** `int(s, 16)`: a value for hex text, None where Python raises
      ValueError. */
  function ParseHex(s: string): Option<nat> {
    if IsHexText(s) then Some(Value(s)) else None
  }

  /** The two lowercase digits `b2a_hex` writes for one byte. */
  function ByteText(b: byte): string {
    [Digit(b / 16), Digit(b % 16)]
  }

  /** `b2a_hex`: two lowercase digits per byte, no separators. */
  function Hexlify(bytes: seq<byte>): string {
    if bytes == [] then [] else ByteText(bytes[0]) + Hexlify(bytes[1..])
  }

  /** `a2b_hex`: one byte per pair of digits (either case); None where
      Python 2 raises TypeError (odd length, or a character that is not a
      hex digit). */
  function Unhexlify(text: string): Option<seq<byte>> {
    if |text| % 2 == 1 then None else Pairs(text)
  }

  function Pairs(text: string): Option<seq<byte>>
    requires |text| % 2 == 0
  {
    if text == [] then Some([])
    else if !IsHexDigit(text[0]) || !IsHexDigit(text[1]) then None
    else match Pairs(text[2..])
      case None => None
      case Some(rest) => Some([DigitValue(text[0]) * 16 + DigitValue(text[1])] + rest)
  }

  // ---------------------------------------------------------------------
  // Properties of the Python conversions

  lemma {:induction false} ValueAppend(s: string, c: char)
    requires AllHex(s) && IsHexDigit(c)
    ensures AllHex(s + [c]) && Value(s + [c]) == Value(s) * 16 + DigitValue(c)
  {
    assert (s + [c])[..|s + [c]| - 1] == s;
  }

  /** `int(hex(n)[2:], 16) == n`, and the digits are lowercase. */
  lemma {:induction false} HexDigitsValue(n: nat)
    ensures |HexDigits(n)| >= 1 && AllLowerHex(HexDigits(n)) && AllHex(HexDigits(n))
    ensures Value(HexDigits(n)) == n
    decreases n
  {
    if n < 16 {
      assert HexDigits(n)[..0] == [];
    } else {
      HexDigitsValue(n / 16);
      ValueAppend(HexDigits(n / 16), Digit(n % 16));
    }
  }

  /** A leading zero does not change the value. */
  lemma {:induction false} ValueLeadingZero(s: string)
    requires AllHex(s)
    ensures AllHex(['0'] + s) && Value(['0'] + s) == Value(s)
    decreases |s|
  {
    if s == [] {
      assert (['0'] + s)[..0] == [];
    } else {
      var init := s[..|s| - 1];
      ValueLeadingZero(init);
      assert (['0'] + s) == (['0'] + init) + [s[|s| - 1]];
      ValueAppend(['0'] + init, s[|s| - 1]);
      assert s == init + [s[|s| - 1]];
      ValueAppend(init, s[|s| - 1]);
    }
  }

  /** For a byte, `hex(b)[2:].zfill(2)` is exactly the two digits
      `b2a_hex` writes, and parses back to b. */
  lemma ByteTextIsZFilledHex(b: byte)
    ensures ZFill2(HexDigits(b)) == ByteText(b)
    ensures |ByteText(b)| == 2 && AllLowerHex(ByteText(b)) && AllHex(ByteText(b))
    ensures Value(ByteText(b)) == b
  {
    var t := ByteText(b);
    ValueAppend([t[0]], t[1]);
    assert t == [t[0]] + [t[1]];
    assert [t[0]][..0] == [];
    if b >= 16 {
      assert b / 16 < 16;
    }
  }

  /** Different bytes have different texts. */
  lemma ByteTextInjective(a: byte, b: byte)
    ensures ByteText(a) == ByteText(b) <==> a == b
  {
    if ByteText(a) == ByteText(b) {
      ByteTextIsZFilledHex(a);
      ByteTextIsZFilledHex(b);
    }
  }

  /** Two-digit hex text of any case parses to a byte whose text is its
      lowercase form. */
  lemma PairText(c0: char, c1: char)
    requires IsHexDigit(c0) && IsHexDigit(c1)
    ensures 0 <= DigitValue(c0) * 16 + DigitValue(c1) < 256
    ensures ByteText(DigitValue(c0) * 16 + DigitValue(c1)) == [ToLower(c0), ToLower(c1)]
    ensures Value([c0, c1]) == DigitValue(c0) * 16 + DigitValue(c1)
  {
    var v := DigitValue(c0) * 16 + DigitValue(c1);
    assert v / 16 == DigitValue(c0) && v % 16 == DigitValue(c1);
    assert [c0, c1] == [c0] + [c1];
    assert [c0][..0] == [];
    ValueAppend([c0], c1);
  }

  lemma {:induction false} HexlifyLength(bytes: seq<byte>)
    ensures |Hexlify(bytes)| == 2 * |bytes| && AllLowerHex(Hexlify(bytes)) && AllHex(Hexlify(bytes))
    decreases |bytes|
  {
    if bytes != [] {
      HexlifyLength(bytes[1..]);
      ByteTextIsZFilledHex(bytes[0]);
    }
  }

  /** Byte k of the input is digits 2k and 2k+1 of the text. */
  lemma {:induction false} HexlifyAt(bytes: seq<byte>, k: nat)
    requires k < |bytes|
    ensures |Hexlify(bytes)| == 2 * |bytes|
    ensures Hexlify(bytes)[2 * k..2 * k + 2] == ByteText(bytes[k])
    decreases k
  {
    HexlifyLength(bytes);
    HexlifyLength(bytes[1..]);
    if k > 0 {
      HexlifyAt(bytes[1..], k - 1);
      var h := Hexlify(bytes);
      assert h == ByteText(bytes[0]) + Hexlify(bytes[1..]);
      assert h[2 * k..2 * k + 2] == Hexlify(bytes[1..])[2 * (k - 1)..2 * (k - 1) + 2];
    }
  }

  /** One step of `a2b_hex`: a leading pair of hex digits becomes one byte. */
  lemma PairsCons(c0: char, c1: char, rest: string)
    requires IsHexDigit(c0) && IsHexDigit(c1) && |rest| % 2 == 0
    ensures Pairs(rest).Some? ==>
      Pairs([c0, c1] + rest) == Some([DigitValue(c0) * 16 + DigitValue(c1)] + Pairs(rest).value)
    ensures Pairs(rest).None? ==> Pairs([c0, c1] + rest).None?
  {
    var t := [c0, c1] + rest;
    assert t[0] == c0 && t[1] == c1;
    assert t[2..] == rest;
  }

  /** Round trip: `a2b_hex(b2a_hex(b)) == b`. */
  lemma {:induction false} UnhexlifyHexlify(bytes: seq<byte>)
    ensures Unhexlify(Hexlify(bytes)) == Some(bytes)
    decreases |bytes|
  {
    if bytes != [] {
      var b := bytes[0];
      var rest := Hexlify(bytes[1..]);
      var c0, c1 := Digit(b / 16), Digit(b % 16);
      assert Hexlify(bytes) == [c0, c1] + rest;
      assert Pairs(rest) == Some(bytes[1..]) by {
        HexlifyLength(bytes[1..]);
        UnhexlifyHexlify(bytes[1..]);
      }
      assert Pairs([c0, c1] + rest) == Some([b] + bytes[1..]) by {
        HexlifyLength(bytes[1..]);
        PairsCons(c0, c1, rest);
      }
      assert |Hexlify(bytes)| % 2 == 0 by {
        HexlifyLength(bytes);
      }
      assert [b] + bytes[1..] == bytes;
    }
  }

  /** Round trip the other way: what `a2b_hex` accepts, `b2a_hex` gives
      back in lowercase. */
  lemma {:induction false} HexlifyUnhexlify(text: string)
    requires Unhexlify(text).Some?
    ensures Hexlify(Unhexlify(text).value) == Lower(text)
    ensures |Unhexlify(text).value| * 2 == |text|
    decreases |text|
  {
    if text != [] {
      var rest := text[2..];
      assert Unhexlify(rest) == Pairs(rest);
      HexlifyUnhexlify(rest);
      PairText(text[0], text[1]);
      assert Lower(text) == [ToLower(text[0]), ToLower(text[1])] + Lower(rest) by {
        assert Lower(text[1..]) == [ToLower(text[1])] + Lower(rest) by {
          assert text[1..][1..] == rest;
        }
      }
    }
  }

  /** `a2b_hex` accepts exactly the even-length strings of hex digits. */
  lemma {:induction false} UnhexlifyDefined(text: string)
    ensures Unhexlify(text).Some? <==> |text| % 2 == 0 && AllHex(text)
    decreases |text|
  {
    if |text| % 2 == 0 && text != [] {
      UnhexlifyDefined(text[2..]);
      assert Unhexlify(text[2..]) == Pairs(text[2..]);
      if AllHex(text) {
        assert AllHex(text[2..]);
      } else if IsHexDigit(text[0]) && IsHexDigit(text[1]) {
        var i :| 0 <= i < |text| && !IsHexDigit(text[i]);
        assert text[2..][i - 2] == text[i];
      }
    }
  }
}
