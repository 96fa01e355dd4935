/** The fields a command is made of. The library accepts each byte of a
    command either as a Python int or as hex text ('8C', '01'), and turns
    ints into text before a frame is assembled. */
module Fields {
  import opened Errors
  import opened Hex

  datatype Field = Num(n: nat) | Text(s: string)

  /** `hex(x)[2:].zfill(2)` for an int field; a text field is kept as given. */
  function Normalize(f: Field): string {
    match f
    case Num(n) => ZFill2(HexDigits(n))
    case Text(s) => s
  }

  /** Python truthiness: the int 0 and the empty string are false. */
  predicate Truthy(f: Field) {
    match f
    case Num(n) => n != 0
    case Text(s) => s != []
  }

  /** Every int becomes lowercase hex text that `int(x, 16)` reads back as
      the same number; a byte becomes exactly two digits. */
  lemma NormalizeNum(n: nat)
    ensures AllLowerHex(Normalize(Num(n)))
    ensures ParseHex(Normalize(Num(n))) == Some(n)
    ensures n < 256 ==> Normalize(Num(n)) == ByteText(n) && |Normalize(Num(n))| == 2
    ensures n >= 256 ==> |Normalize(Num(n))| > 2
  {
    var digits := HexDigits(n);
    HexDigitsValue(n);
    if |digits| < 2 {
      assert Normalize(Num(n)) == ['0'] + digits;
      ValueLeadingZero(digits);
    }
    if n < 256 {
      ByteTextIsZFilledHex(n);
    } else {
      assert n / 16 >= 16;
      HexDigitsValue(n / 16);
      assert HexDigits(n / 16) == HexDigits(n / 16 / 16) + [Digit(n / 16 % 16)];
      HexDigitsValue(n / 16 / 16);
    }
  }
}
