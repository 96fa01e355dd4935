/** The mod-256 additive checksum of a command (`_chksum`). It takes a list
    of fields that are all ints or all hex text and answers in the same
    form: an int, or two lowercase hex digits. */
module Checksum {
  import opened Errors
  import opened Hex
  import opened Fields

  /** `sum` of a list of numbers. */
  function Total(values: seq<nat>): nat {
    if values == [] then 0 else values[0] + Total(values[1..])
  }

  /** The `if binsum > 255: binsum %= 256` step. */
  function Fold(binsum: nat): nat {
    if binsum > 255 then binsum % 256 else binsum
  }

  /** `[int(c, 16) for c in command]`: stops at the first int field
      (TypeError) or the first text that is not hex (ValueError). */
  function ParseTexts(command: seq<Field>): Result<seq<nat>> {
    if command == [] then Ok([])
    else match command[0]
      case Num(_) => Err(MixedFields)
      case Text(s) =>
        match ParseHex(s)
        case None => Err(MalformedHex)
        case Some(v) =>
          match ParseTexts(command[1..])
          case Err(e) => Err(e)
          case Ok(values) => Ok([v] + values)
  }

  /** `sum(command)` on a list that starts with an int: TypeError as soon as
      a text field is among them. */
  function SumNums(command: seq<Field>): Result<nat> {
    if command == [] then Ok(0)
    else match command[0]
      case Text(_) => Err(MixedFields)
      case Num(n) =>
        match SumNums(command[1..])
        case Err(e) => Err(e)
        case Ok(rest) => Ok(n + rest)
  }

  /** `_chksum(command)`. The form of the first field decides the path;
      an empty command fails on `command[0]` (IndexError). */
  function Chksum(command: seq<Field>): Result<Field> {
    if command == [] then Err(MissingField)
    else if command[0].Text? then
      match ParseTexts(command)
      case Err(e) => Err(e)
      case Ok(values) =>
        var digits := HexDigits(Fold(Total(values)));
        // hex(binsum)[2:4].zfill(2)
        Ok(Text(ZFill2(if |digits| > 2 then digits[..2] else digits)))
    else
      match SumNums(command)
      case Err(e) => Err(e)
      case Ok(binsum) => Ok(Num(Fold(binsum)))
  }

  // ---------------------------------------------------------------------
  // Reference definitions: what the checksum is meant to be

  predicate ValidText(f: Field) {
    f.Text? && IsHexText(f.s)
  }

  predicate AllValidText(command: seq<Field>) {
    forall i :: 0 <= i < |command| ==> ValidText(command[i])
  }

  predicate AllNum(command: seq<Field>) {
    forall i :: 0 <= i < |command| ==> command[i].Num?
  }

  /** The number a field stands for (0 for text that is not hex). */
  function FieldValue(f: Field): nat {
    match f
    case Num(n) => n
    case Text(s) => if IsHexText(s) then Value(s) else 0
  }

  /** The arithmetic sum of the values of all fields. */
  function FieldSum(command: seq<Field>): nat {
    if command == [] then 0 else FieldValue(command[0]) + FieldSum(command[1..])
  }

  // ---------------------------------------------------------------------
  // Properties

  lemma FoldIsMod(binsum: nat)
    ensures Fold(binsum) == binsum % 256 && Fold(binsum) < 256
  {
  }

  lemma {:induction false} ParseTextsValues(command: seq<Field>)
    ensures ParseTexts(command).Ok? <==> AllValidText(command)
    ensures ParseTexts(command).Ok? ==> Total(ParseTexts(command).value) == FieldSum(command)
    ensures ParseTexts(command).Err? ==> ParseTexts(command).error in {MixedFields, MalformedHex}
    decreases |command|
  {
    if command != [] {
      ParseTextsValues(command[1..]);
      if AllValidText(command) {
        assert AllValidText(command[1..]) by {
          forall i | 0 <= i < |command| - 1 ensures ValidText(command[1..][i]) {
            assert command[1..][i] == command[i + 1];
          }
        }
      } else if ValidText(command[0]) {
        var i :| 0 <= i < |command| && !ValidText(command[i]);
        assert command[1..][i - 1] == command[i];
      }
    }
  }

  lemma {:induction false} SumNumsValues(command: seq<Field>)
    ensures SumNums(command).Ok? <==> AllNum(command)
    ensures SumNums(command).Ok? ==> SumNums(command).value == FieldSum(command)
    ensures SumNums(command).Err? ==> SumNums(command).error == MixedFields
    decreases |command|
  {
    if command != [] {
      SumNumsValues(command[1..]);
      if AllNum(command) {
        assert AllNum(command[1..]) by {
          forall i | 0 <= i < |command| - 1 ensures command[1..][i].Num? {
            assert command[1..][i] == command[i + 1];
          }
        }
      } else if command[0].Num? {
        var i :| 0 <= i < |command| && !command[i].Num?;
        assert command[1..][i - 1] == command[i];
      }
    }
  }

  /** The checksum succeeds exactly on non-empty homogeneous input, answers
      in the form of its input, and its value is the sum of all field values
      mod 256: two lowercase hex digits for text input, the number itself
      for int input. */
  lemma ChecksumIsSumMod256(command: seq<Field>)
    ensures Chksum(command).Ok? <==> command != [] && (AllValidText(command) || AllNum(command))
    ensures Chksum(command).Ok? && command[0].Text? ==>
      Chksum(command).value == Text(ByteText(FieldSum(command) % 256))
    ensures Chksum(command).Ok? && command[0].Num? ==>
      Chksum(command).value == Num(FieldSum(command) % 256)
  {
    if command != [] {
      ParseTextsValues(command);
      SumNumsValues(command);
      if command[0].Text? {
        assert !AllNum(command) by { assert !command[0].Num?; }
        if AllValidText(command) {
          var binsum := Fold(Total(ParseTexts(command).value));
          FoldIsMod(Total(ParseTexts(command).value));
          ByteTextIsZFilledHex(binsum);
          assert |HexDigits(binsum)| <= 2 by {
            if binsum >= 16 {
              assert HexDigits(binsum) == HexDigits(binsum / 16) + [Digit(binsum % 16)];
            }
          }
        }
      } else {
        assert !AllValidText(command) by { assert !ValidText(command[0]); }
      }
    }
  }

  /** How the checksum fails: an empty command has no first field; mixed
      forms are a type error; otherwise some text is not hex. */
  lemma ChecksumErrors(command: seq<Field>)
    ensures Chksum(command) == Err(MissingField) <==> command == []
    ensures Chksum(command).Err? ==> Chksum(command).error in {MissingField, MixedFields, MalformedHex}
    ensures Chksum(command) == Err(MixedFields) ==>
      exists i :: 0 <= i < |command| && command[i].Num? != command[0].Num?
    ensures Chksum(command) == Err(MalformedHex) ==>
      command[0].Text? && exists i :: 0 <= i < |command| && command[i].Text? && !ValidText(command[i])
  {
    ParseTextsValues(command);
    SumNumsValues(command);
    if command != [] && command[0].Text? && Chksum(command).Err? {
      MixedOrMalformed(command);
    }
  }

  lemma {:induction false} MixedOrMalformed(command: seq<Field>)
    requires ParseTexts(command).Err?
    ensures ParseTexts(command).error == MixedFields ==>
      exists i :: 0 <= i < |command| && command[i].Num?
    ensures ParseTexts(command).error == MalformedHex ==>
      exists i :: 0 <= i < |command| && command[i].Text? && !ValidText(command[i])
    decreases |command|
  {
    if command[0].Text? && IsHexText(command[0].s) {
      MixedOrMalformed(command[1..]);
      assert ParseTexts(command).error == ParseTexts(command[1..]).error;
      if ParseTexts(command).error == MixedFields {
        var i :| 0 <= i < |command[1..]| && command[1..][i].Num?;
        assert command[i + 1].Num?;
      } else if ParseTexts(command).error == MalformedHex {
        var i :| 0 <= i < |command[1..]| && command[1..][i].Text? && !ValidText(command[1..][i]);
        assert command[i + 1] == command[1..][i];
      }
    }
  }
}
