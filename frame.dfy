/** Building one command frame (the first half of `_cmd`).

    A command is a list of fields: category code, declared length (which
    counts the checksum byte), then data. The frame is the header pair,
    the category, the length, the data (possibly left-padded with '00'),
    and the checksum of everything before it; the joined hex text is
    turned into raw bytes by `a2b_hex` before it is written. */
module Frame {
  import opened Errors
  import opened Hex
  import opened Fields
  import opened Checksum
  import opened Split

  /** The class attributes `byte0` and `byte1`: the default header. */
  const DEFAULT_BYTE0: string := "8C"
  const DEFAULT_BYTE1: string := "00"

  /** A header argument counts as given only when it is truthy: None, the
      int 0 and '' all select the default. */
  predicate Supplied(arg: Option<Field>) {
    arg.Some? && Truthy(arg.value)
  }

  function Header(arg: Option<Field>, default: string): string {
    if Supplied(arg) then Normalize(arg.value) else default
  }

  /** `std_cmd` as the code computes it: it stays true only when BOTH
      headers are supplied, so padding happens only for explicit headers. */
  predicate Standard(byte0: Option<Field>, byte1: Option<Field>) {
    Supplied(byte0) && Supplied(byte1)
  }

  /** The `newdata` list: every data field normalised, in order. */
  function NormalizeAll(fields: seq<Field>): seq<string> {
    seq(|fields|, i requires 0 <= i < |fields| => Normalize(fields[i]))
  }

  /** `['00' for x in range(count)]`: empty when count is not positive. */
  function ZeroPad(count: int): seq<string> {
    if count <= 0 then [] else seq(count, _ => "00")
  }

  /** The zero-padding step of `_cmd`. */
  function PadData(standard: bool, required: nat, data: seq<string>): seq<string> {
    if standard && |data| + 1 != required then ZeroPad(required - (|data| + 1)) + data else data
  }

  function AsText(texts: seq<string>): seq<Field> {
    seq(|texts|, i requires 0 <= i < |texts| => Text(texts[i]))
  }

  /** The `cmd` list before its checksum, once the length has been read. */
  function Body(command: seq<Field>, byte0: Option<Field>, byte1: Option<Field>, required: nat): seq<string>
    requires |command| >= 2
  {
    [Header(byte0, DEFAULT_BYTE0), Header(byte1, DEFAULT_BYTE1), Normalize(command[0]), Normalize(command[1])]
      + PadData(Standard(byte0, byte1), required, NormalizeAll(command[2..]))
  }

  /** The complete `cmd` list that `_cmd` joins and encodes. */
  function Layout(command: seq<Field>, byte0: Option<Field>, byte1: Option<Field>): Result<seq<string>> {
    if |command| < 2 then Err(MissingField)  // command[0] or command[1]
    else
      match ParseHex(Normalize(command[1]))  // required_length = int(length, 16)
      case None => Err(MalformedHex)
      case Some(required) =>
        var body := Body(command, byte0, byte1, required);
        match Chksum(AsText(body))
        case Err(e) => Err(e)
        case Ok(Num(_)) => Err(EncodeError)  // ''.join would reject an int
        case Ok(Text(chk)) => Ok(body + [chk])
  }

  /** The bytes written to the channel: `a2b_hex(''.join(cmd))`. */
  function Encode(command: seq<Field>, byte0: Option<Field>, byte1: Option<Field>): Result<seq<byte>> {
    match Layout(command, byte0, byte1)
    case Err(e) => Err(e)
    case Ok(cmd) =>
      match Unhexlify(Join(cmd))
      case None => Err(EncodeError)
      case Some(bytes) => Ok(bytes)
  }

  /** The frame-building steps of `_cmd`, in the order the source takes them. */
  method BuildFrame(command: seq<Field>, byte0: Option<Field>, byte1: Option<Field>) returns (frame: Result<seq<byte>>)
    ensures frame == Encode(command, byte0, byte1)
  {
    var cmd := BuildCmd(command, byte0, byte1);
    if cmd.Err? {
      return Err(cmd.error);
    }
    var encoded := Unhexlify(Join(cmd.value));
    if encoded.None? {
      return Err(EncodeError);
    }
    return Ok(encoded.value);
  }

  /** The `cmd` list of `_cmd`: headers, category, length, data (padded
      when required) and checksum, each step failing as the source does. */
  method BuildCmd(command: seq<Field>, byte0: Option<Field>, byte1: Option<Field>) returns (r: Result<seq<string>>)
    ensures r == Layout(command, byte0, byte1)
  {
    var standard, cmd := HeaderPair(byte0, byte1);

    if |command| == 0 {
      return Err(MissingField);
    }
    var code := Normalize(command[0]);
    if |command| == 1 {
      return Err(MissingField);
    }
    var length := Normalize(command[1]);
    var parsed := ParseHex(length);
    if parsed.None? {
      return Err(MalformedHex);
    }
    var requiredLength := parsed.value;
    cmd := cmd + [code, length];

    var newdata := NormalizeData(command[2..]);
    var dataLength := |newdata| + 1;
    var padded := newdata;
    if standard && dataLength != requiredLength {
      padded := ZeroPad(requiredLength - dataLength) + newdata;
    }
    assert cmd + padded == Body(command, byte0, byte1, requiredLength) by {
      assert newdata == NormalizeAll(command[2..]);
      assert padded == PadData(standard, requiredLength, newdata);
    }
    cmd := cmd + padded;

    var checksum := Chksum(AsText(cmd));
    match checksum {
      case Err(e) =>
        assert Layout(command, byte0, byte1) == Err(e);
        return Err(e);
      case Ok(Num(_)) =>
        assert Layout(command, byte0, byte1) == Err(EncodeError);
        return Err(EncodeError);
      case Ok(Text(chk)) =>
        cmd := cmd + [chk];
        assert Layout(command, byte0, byte1) == Ok(cmd);
        return Ok(cmd);
    }
  }

  /** The header step of `_cmd`: each header falls back to its default
      when it is not truthy, and `std_cmd` is cleared when either does. */
  method HeaderPair(byte0: Option<Field>, byte1: Option<Field>) returns (standard: bool, cmd: seq<string>)
    ensures standard == Standard(byte0, byte1)
    ensures cmd == [Header(byte0, DEFAULT_BYTE0), Header(byte1, DEFAULT_BYTE1)]
  {
    standard := true;
    var header0, header1 := byte0, byte1;
    if !Supplied(header0) {
      standard := false;
      header0 := Some(Text(DEFAULT_BYTE0));
    }
    if !Supplied(header1) {
      standard := false;
      header1 := Some(Text(DEFAULT_BYTE1));
    }
    cmd := [Normalize(header0.value), Normalize(header1.value)];
  }

  /** The `newdata` loop of `_cmd`: every data field normalised, in order. */
  method NormalizeData(data: seq<Field>) returns (newdata: seq<string>)
    ensures |newdata| == |data|
    ensures forall k :: 0 <= k < |data| ==> newdata[k] == Normalize(data[k])
  {
    newdata := [];
    for i := 0 to |data|
      invariant |newdata| == i
      invariant forall k :: 0 <= k < i ==> newdata[k] == Normalize(data[k])
    {
      newdata := newdata + [Normalize(data[i])];
    }
  }

  // ---------------------------------------------------------------------
  // Helpers on joined text and sums

  /** The sum of a list of bytes. */
  function ByteSum(bytes: seq<byte>): nat {
    if bytes == [] then 0 else bytes[0] + ByteSum(bytes[1..])
  }

  lemma {:induction false} JoinAllHex(parts: seq<string>)
    requires forall i :: 0 <= i < |parts| ==> AllHex(parts[i])
    ensures AllHex(Join(parts))
    decreases |parts|
  {
    if parts != [] {
      JoinAllHex(parts[1..]);
      var j := Join(parts);
      assert j == parts[0] + Join(parts[1..]);
      forall i | 0 <= i < |j| ensures IsHexDigit(j[i]) {
        if i >= |parts[0]| {
          assert j[i] == Join(parts[1..])[i - |parts[0]|];
        }
      }
    }
  }

  /** Joining two-digit texts and decoding gives one byte per text. */
  lemma {:induction false} JoinPairs(parts: seq<string>)
    requires forall i :: 0 <= i < |parts| ==> IsPair(parts[i])
    ensures |Join(parts)| == 2 * |parts|
    ensures Unhexlify(Join(parts)).Some?
    ensures |Unhexlify(Join(parts)).value| == |parts|
    ensures forall i :: 0 <= i < |parts| ==> ParseHex(parts[i]) == Some(Unhexlify(Join(parts)).value[i])
    decreases |parts|
  {
    if parts != [] {
      var p := parts[0];
      JoinPairs(parts[1..]);
      var rest := Join(parts[1..]);
      assert p == [p[0], p[1]];
      PairsCons(p[0], p[1], rest);
      PairText(p[0], p[1]);
      assert Unhexlify(rest) == Pairs(rest);
      var bytes := Unhexlify(Join(parts)).value;
      forall i | 0 <= i < |parts| ensures ParseHex(parts[i]) == Some(bytes[i]) {
        if i > 0 {
          assert parts[i] == parts[1..][i - 1];
        }
      }
    }
  }

  lemma {:induction false} TextSumIsByteSum(texts: seq<string>, bytes: seq<byte>)
    requires |texts| == |bytes|
    requires forall i :: 0 <= i < |texts| ==> ParseHex(texts[i]) == Some(bytes[i])
    ensures FieldSum(AsText(texts)) == ByteSum(bytes)
    decreases |texts|
  {
    if texts != [] {
      assert AsText(texts)[1..] == AsText(texts[1..]);
      TextSumIsByteSum(texts[1..], bytes[1..]);
    }
  }

  /** The value of two hex digits. */
  lemma PairParse(s: string)
    requires IsPair(s)
    ensures ParseHex(s) == Some(DigitValue(s[0]) * 16 + DigitValue(s[1]))
  {
    assert s == [s[0], s[1]];
    PairText(s[0], s[1]);
  }

  /** The checksum of hex texts is the text of the sum of their bytes. */
  lemma TextChecksumOf(texts: seq<string>, bytes: seq<byte>)
    requires |texts| == |bytes| > 0
    requires forall i :: 0 <= i < |texts| ==> ParseHex(texts[i]) == Some(bytes[i])
    ensures Chksum(AsText(texts)) == Ok(Text(ByteText(ByteSum(bytes) % 256)))
  {
    TextSumIsByteSum(texts, bytes);
    TextChecksum(texts);
  }

  /** The layout once the length and the checksum of the body are known. */
  lemma LayoutOf(command: seq<Field>, byte0: Option<Field>, byte1: Option<Field>, required: nat, chk: string)
    requires |command| >= 2 && ParseHex(Normalize(command[1])) == Some(required)
    requires Chksum(AsText(Body(command, byte0, byte1, required))) == Ok(Text(chk))
    ensures Layout(command, byte0, byte1) == Ok(Body(command, byte0, byte1, required) + [chk])
  {
  }

  /** A frame is determined by its body and its bytes: when the body is
      given, every entry is two hex digits standing for its byte, and the
      last entry is the text of the mod-256 sum of the other bytes, those
      bytes are what is written. */
  lemma EncodeFromEntries(command: seq<Field>, byte0: Option<Field>, byte1: Option<Field>, required: nat,
                          cmd: seq<string>, bytes: seq<byte>)
    requires |command| >= 2 && ParseHex(Normalize(command[1])) == Some(required)
    requires |cmd| == |bytes| >= 2
    requires Body(command, byte0, byte1, required) == cmd[..|cmd| - 1]
    requires forall i :: 0 <= i < |cmd| ==> IsPair(cmd[i]) && ParseHex(cmd[i]) == Some(bytes[i])
    requires bytes[|bytes| - 1] == ByteSum(bytes[..|bytes| - 1]) % 256
    requires cmd[|cmd| - 1] == ByteText(bytes[|bytes| - 1])
    ensures Layout(command, byte0, byte1) == Ok(cmd)
    ensures Encode(command, byte0, byte1) == Ok(bytes)
  {
    var n := |cmd| - 1;
    var body := cmd[..n];
    assert Chksum(AsText(body)) == Ok(Text(cmd[n])) by {
      forall i | 0 <= i < n ensures ParseHex(body[i]) == Some(bytes[..n][i]) {
        assert body[i] == cmd[i] && bytes[..n][i] == bytes[i];
      }
      TextChecksumOf(body, bytes[..n]);
    }
    assert Layout(command, byte0, byte1) == Ok(cmd) by {
      LayoutOf(command, byte0, byte1, required, cmd[n]);
      assert body + [cmd[n]] == cmd;
    }
    EncodePairs(command, byte0, byte1, bytes);
  }

  /** A layout of two-digit entries is written as the bytes they stand for. */
  lemma EncodePairs(command: seq<Field>, byte0: Option<Field>, byte1: Option<Field>, bytes: seq<byte>)
    requires Layout(command, byte0, byte1).Ok?
    requires var cmd := Layout(command, byte0, byte1).value;
      && |cmd| == |bytes|
      && (forall i :: 0 <= i < |cmd| ==> IsPair(cmd[i]))
      && (forall i :: 0 <= i < |cmd| ==> ParseHex(cmd[i]) == Some(bytes[i]))
    ensures Encode(command, byte0, byte1) == Ok(bytes)
  {
    var cmd := Layout(command, byte0, byte1).value;
    JoinPairs(cmd);
    var written := Unhexlify(Join(cmd)).value;
    assert written == bytes by {
      forall i | 0 <= i < |cmd| ensures written[i] == bytes[i] {
        assert Some(written[i]) == ParseHex(cmd[i]);
      }
    }
  }

  // ---------------------------------------------------------------------
  // Properties of the frame

  /** Layout of a frame: the header (each default unless given truthy), the
      category and length as normalised, then the data — left-padded with
      exactly `required - len(data) - 1` '00' groups when both headers are
      given and the data is short, unchanged otherwise — and last the
      two-digit lowercase checksum: the mod-256 sum of the values of all
      preceding entries. */
  lemma LayoutFrame(command: seq<Field>, byte0: Option<Field>, byte1: Option<Field>)
    requires Layout(command, byte0, byte1).Ok?
    ensures |command| >= 2 && IsHexText(Normalize(command[1]))
    ensures
      var cmd := Layout(command, byte0, byte1).value;
      var required := ParseHex(Normalize(command[1])).value;
      var data := NormalizeAll(command[2..]);
      var padding := if Standard(byte0, byte1) && required > |data| + 1
                     then required - |data| - 1 else 0;
      && |cmd| == 5 + padding + |data|
      && cmd[0] == (if Supplied(byte0) then Normalize(byte0.value) else "8C")
      && cmd[1] == (if Supplied(byte1) then Normalize(byte1.value) else "00")
      && cmd[2] == Normalize(command[0])
      && cmd[3] == Normalize(command[1])
      && (forall k :: 4 <= k < 4 + padding ==> cmd[k] == "00")
      && cmd[4 + padding..|cmd| - 1] == data
      && cmd[|cmd| - 1] == ByteText(FieldSum(AsText(cmd[..|cmd| - 1])) % 256)
  {
    var required := ParseHex(Normalize(command[1])).value;
    var data := NormalizeAll(command[2..]);
    var padded := PadData(Standard(byte0, byte1), required, data);
    var padding := if Standard(byte0, byte1) && required > |data| + 1
                   then required - |data| - 1 else 0;
    assert |padded| == padding + |data| && padded[padding..] == data
      && forall k :: 0 <= k < padding ==> padded[k] == "00" by {
      PadDataShape(Standard(byte0, byte1), required, data);
    }
    var head := [Header(byte0, DEFAULT_BYTE0), Header(byte1, DEFAULT_BYTE1), Normalize(command[0]), Normalize(command[1])];
    var body := Body(command, byte0, byte1, required);
    var chk := ByteText(FieldSum(AsText(body)) % 256);
    assert Layout(command, byte0, byte1).value == head + padded + [chk] by {
      TextChecksum(body);
      assert body == head + padded;
    }
    FrameShape(Layout(command, byte0, byte1).value, head, padded, data, chk, padding);
  }

  /** Positions in `head + padded + [chk]` for a four-entry head and data
      padded with `padding` '00' groups. */
  lemma FrameShape(cmd: seq<string>, head: seq<string>, padded: seq<string>, data: seq<string>,
                   chk: string, padding: nat)
    requires cmd == head + padded + [chk] && |head| == 4
    requires |padded| == padding + |data| && padded[padding..] == data
    requires forall k :: 0 <= k < padding ==> padded[k] == "00"
    ensures |cmd| == 5 + padding + |data|
    ensures cmd[0] == head[0] && cmd[1] == head[1] && cmd[2] == head[2] && cmd[3] == head[3]
    ensures forall k :: 4 <= k < 4 + padding ==> cmd[k] == "00"
    ensures cmd[4 + padding..|cmd| - 1] == data
    ensures cmd[..|cmd| - 1] == head + padded && cmd[|cmd| - 1] == chk
  {
    forall k | 4 <= k < 4 + padding ensures cmd[k] == "00" {
      assert cmd[k] == padded[k - 4];
    }
    assert cmd[4 + padding..|cmd| - 1] == padded[padding..];
  }

  /** The checksum of hex texts: two lowercase digits of the mod-256 sum
      when every text is hex, MalformedHex otherwise. */
  lemma TextChecksum(texts: seq<string>)
    requires texts != []
    ensures Chksum(AsText(texts)) ==
      if forall j :: 0 <= j < |texts| ==> IsHexText(texts[j])
      then Ok(Text(ByteText(FieldSum(AsText(texts)) % 256)))
      else Err(MalformedHex)
  {
    var fields := AsText(texts);
    ChecksumIsSumMod256(fields);
    ChecksumErrors(fields);
    assert fields[0].Text?;
    assert !AllNum(fields);
    assert forall j :: 0 <= j < |fields| ==> !fields[j].Num?;
    assert AllValidText(fields) <==> forall j :: 0 <= j < |texts| ==> IsHexText(texts[j]) by {
      assert forall j :: 0 <= j < |texts| ==> fields[j] == Text(texts[j]);
    }
  }

  /** Padding puts some '00' groups in front of the data and keeps the data. */
  lemma PadDataShape(standard: bool, required: nat, data: seq<string>)
    ensures |PadData(standard, required, data)| >= |data|
    ensures forall k :: 0 <= k < |PadData(standard, required, data)| - |data| ==>
      PadData(standard, required, data)[k] == "00"
    ensures PadData(standard, required, data)[|PadData(standard, required, data)| - |data|..] == data
  {
  }

  /** A property holds of every entry of `head + padded` exactly when it
      holds of every entry of head and of the data, if it holds of '00'. */
  lemma EntriesHold(head: seq<string>, padded: seq<string>, data: seq<string>, ok: string -> bool)
    requires ok("00")
    requires |padded| >= |data|
    requires forall k :: 0 <= k < |padded| - |data| ==> padded[k] == "00"
    requires padded[|padded| - |data|..] == data
    ensures (forall j :: 0 <= j < |head + padded| ==> ok((head + padded)[j])) <==>
      (forall j :: 0 <= j < |head| ==> ok(head[j])) && (forall i :: 0 <= i < |data| ==> ok(data[i]))
  {
    var all := head + padded;
    var zeros := |padded| - |data|;
    if forall j :: 0 <= j < |all| ==> ok(all[j]) {
      forall i | 0 <= i < |data| ensures ok(data[i]) {
        assert data[i] == padded[zeros + i] == all[|head| + zeros + i];
      }
      forall j | 0 <= j < |head| ensures ok(head[j]) {
        assert head[j] == all[j];
      }
    }
    if (forall j :: 0 <= j < |head| ==> ok(head[j])) && (forall i :: 0 <= i < |data| ==> ok(data[i])) {
      forall j | 0 <= j < |all| ensures ok(all[j]) {
        if j >= |head| + zeros {
          assert all[j] == padded[j - |head|] == data[j - |head| - zeros];
        } else if j >= |head| {
          assert all[j] == padded[j - |head|];
        }
      }
    }
  }

  /** A property holds of every normalised field exactly when it holds of
      the category, the length and every normalised data field. */
  lemma CommandEntries(command: seq<Field>, ok: string -> bool)
    requires |command| >= 2
    ensures (forall i :: 0 <= i < |command| ==> ok(Normalize(command[i]))) <==>
      && ok(Normalize(command[0])) && ok(Normalize(command[1]))
      && (forall i :: 0 <= i < |NormalizeAll(command[2..])| ==> ok(NormalizeAll(command[2..])[i]))
  {
    var data := NormalizeAll(command[2..]);
    assert forall i :: 0 <= i < |data| ==> data[i] == Normalize(command[i + 2]);
    if forall i :: 0 <= i < |data| ==> ok(data[i]) {
      forall i | 2 <= i < |command| ensures ok(Normalize(command[i])) {
        assert data[i - 2] == Normalize(command[i]);
      }
    }
  }

  lemma FourEntries(head: seq<string>, ok: string -> bool)
    requires |head| == 4
    ensures (forall j :: 0 <= j < |head| ==> ok(head[j])) <==>
      ok(head[0]) && ok(head[1]) && ok(head[2]) && ok(head[3])
  {
  }

  /** A property of texts that '00' has holds of every entry of the body
      exactly when it holds of both headers and of every field of the
      command, after normalisation. */
  lemma BodyEntries(command: seq<Field>, byte0: Option<Field>, byte1: Option<Field>, required: nat, ok: string -> bool)
    requires |command| >= 2 && ok("00")
    ensures (forall j :: 0 <= j < |Body(command, byte0, byte1, required)| ==>
               ok(Body(command, byte0, byte1, required)[j]))
      <==> (&& ok(Header(byte0, DEFAULT_BYTE0))
            && ok(Header(byte1, DEFAULT_BYTE1))
            && forall i :: 0 <= i < |command| ==> ok(Normalize(command[i])))
  {
    var head := [Header(byte0, DEFAULT_BYTE0), Header(byte1, DEFAULT_BYTE1), Normalize(command[0]), Normalize(command[1])];
    var data := NormalizeAll(command[2..]);
    var padded := PadData(Standard(byte0, byte1), required, data);
    PadDataShape(Standard(byte0, byte1), required, data);
    assert Body(command, byte0, byte1, required) == head + padded;
    EntriesHold(head, padded, data, ok);
    CommandEntries(command, ok);
    FourEntries(head, ok);
  }

  /** When the layout fails and why: a command with fewer than two fields
      has no category or length; otherwise it fails exactly when a header,
      or any field, is not hexadecimal text after normalisation. */
  lemma LayoutErrors(command: seq<Field>, byte0: Option<Field>, byte1: Option<Field>)
    ensures Layout(command, byte0, byte1) == Err(MissingField) <==> |command| < 2
    ensures Layout(command, byte0, byte1).Err? ==>
      Layout(command, byte0, byte1).error in {MissingField, MalformedHex}
    ensures |command| >= 2 ==>
      (Layout(command, byte0, byte1).Ok? <==>
        && IsHexText(Header(byte0, DEFAULT_BYTE0))
        && IsHexText(Header(byte1, DEFAULT_BYTE1))
        && forall i :: 0 <= i < |command| ==> IsHexText(Normalize(command[i])))
  {
    if |command| >= 2 {
      match ParseHex(Normalize(command[1]))
      case None =>
      case Some(required) =>
        TextChecksum(Body(command, byte0, byte1, required));
        assert IsHexText("00");
        BodyEntries(command, byte0, byte1, required, IsHexText);
    }
  }

  /** With both headers given and no surplus data, data plus checksum fill
      exactly the declared length: the frame has 4 + length entries. */
  lemma PaddedLength(command: seq<Field>, byte0: Option<Field>, byte1: Option<Field>)
    requires Layout(command, byte0, byte1).Ok? && Standard(byte0, byte1)
    requires |command| >= 2 && IsHexText(Normalize(command[1]))
    requires ParseHex(Normalize(command[1])).value >= |command| - 1
    ensures |Layout(command, byte0, byte1).value| == 4 + ParseHex(Normalize(command[1])).value
  {
    LayoutFrame(command, byte0, byte1);
  }

  /** Every entry of a successful layout is hex text. */
  lemma LayoutAllHex(command: seq<Field>, byte0: Option<Field>, byte1: Option<Field>)
    requires Layout(command, byte0, byte1).Ok?
    ensures forall i :: 0 <= i < |Layout(command, byte0, byte1).value| ==>
      AllHex(Layout(command, byte0, byte1).value[i])
  {
    var required := ParseHex(Normalize(command[1])).value;
    var body := Body(command, byte0, byte1, required);
    var cmd := Layout(command, byte0, byte1).value;
    TextChecksum(body);
    var chk := ByteText(FieldSum(AsText(body)) % 256);
    assert cmd == body + [chk];
    ByteTextIsZFilledHex(FieldSum(AsText(body)) % 256);
    forall i | 0 <= i < |cmd| ensures AllHex(cmd[i]) {
      if i < |body| {
        assert cmd[i] == body[i];
      }
    }
  }

  /** `a2b_hex` of the joined frame text fails (EncodeError) exactly when
      that text has odd length; otherwise `b2a_hex` of the written bytes is
      the joined text in lowercase. */
  lemma EncodeText(command: seq<Field>, byte0: Option<Field>, byte1: Option<Field>)
    requires Layout(command, byte0, byte1).Ok?
    ensures Encode(command, byte0, byte1) == Err(EncodeError) <==>
      |Join(Layout(command, byte0, byte1).value)| % 2 == 1
    ensures Encode(command, byte0, byte1).Ok? ==>
      Hexlify(Encode(command, byte0, byte1).value) == Lower(Join(Layout(command, byte0, byte1).value))
  {
    var cmd := Layout(command, byte0, byte1).value;
    LayoutAllHex(command, byte0, byte1);
    JoinAllHex(cmd);
    UnhexlifyDefined(Join(cmd));
    if Unhexlify(Join(cmd)).Some? {
      HexlifyUnhexlify(Join(cmd));
    }
  }

  /** A field that stands for one byte: an int below 256, or two hex digits. */
  predicate ByteField(f: Field) {
    match f
    case Num(n) => n < 256
    case Text(s) => IsPair(s)
  }

  lemma NormalizeByteField(f: Field)
    requires ByteField(f)
    ensures IsPair(Normalize(f))
  {
    if f.Num? {
      NormalizeNum(f.n);
      ByteTextIsZFilledHex(f.n);
    }
  }

  /** For one-byte fields every entry of the frame is two hex digits. */
  lemma LayoutPairs(command: seq<Field>, byte0: Option<Field>, byte1: Option<Field>)
    requires |command| >= 2
    requires Supplied(byte0) ==> ByteField(byte0.value)
    requires Supplied(byte1) ==> ByteField(byte1.value)
    requires forall i :: 0 <= i < |command| ==> ByteField(command[i])
    ensures Layout(command, byte0, byte1).Ok?
    ensures forall i :: 0 <= i < |Layout(command, byte0, byte1).value| ==>
      IsPair(Layout(command, byte0, byte1).value[i])
    ensures
      var cmd := Layout(command, byte0, byte1).value;
      |cmd| >= 5 && cmd[|cmd| - 1] == ByteText(FieldSum(AsText(cmd[..|cmd| - 1])) % 256)
  {
    assert IsPair(Normalize(command[1])) by { NormalizeByteField(command[1]); }
    var required := ParseHex(Normalize(command[1])).value;
    var body := Body(command, byte0, byte1, required);
    assert forall j :: 0 <= j < |body| ==> IsPair(body[j]) by {
      assert IsPair(Header(byte0, DEFAULT_BYTE0)) by {
        if Supplied(byte0) { NormalizeByteField(byte0.value); }
      }
      assert IsPair(Header(byte1, DEFAULT_BYTE1)) by {
        if Supplied(byte1) { NormalizeByteField(byte1.value); }
      }
      forall i | 0 <= i < |command| ensures IsPair(Normalize(command[i])) {
        NormalizeByteField(command[i]);
      }
      assert IsPair("00");
      BodyEntries(command, byte0, byte1, required, IsPair);
    }
    var chk := ByteText(FieldSum(AsText(body)) % 256);
    assert Layout(command, byte0, byte1) == Ok(body + [chk]) by {
      assert forall j :: 0 <= j < |body| ==> IsHexText(body[j]);
      TextChecksum(body);
      LayoutOf(command, byte0, byte1, required, chk);
    }
    ByteTextIsZFilledHex(FieldSum(AsText(body)) % 256);
    assert (body + [chk])[..|body|] == body;
  }

  /** A command whose every field (and every given header) is one byte is
      written as one byte per frame entry, and the last byte is the
      mod-256 sum of all the bytes before it. */
  lemma FrameBytes(command: seq<Field>, byte0: Option<Field>, byte1: Option<Field>)
    requires |command| >= 2
    requires Supplied(byte0) ==> ByteField(byte0.value)
    requires Supplied(byte1) ==> ByteField(byte1.value)
    requires forall i :: 0 <= i < |command| ==> ByteField(command[i])
    ensures Layout(command, byte0, byte1).Ok? && Encode(command, byte0, byte1).Ok?
    ensures
      var cmd := Layout(command, byte0, byte1).value;
      var bytes := Encode(command, byte0, byte1).value;
      && |bytes| == |cmd| >= 5
      && (forall i :: 0 <= i < |bytes| ==> ParseHex(cmd[i]) == Some(bytes[i]))
      && bytes[|bytes| - 1] == ByteSum(bytes[..|bytes| - 1]) % 256
  {
    LayoutPairs(command, byte0, byte1);
    var cmd := Layout(command, byte0, byte1).value;
    var n := |cmd| - 1;
    JoinPairs(cmd);
    var bytes := Unhexlify(Join(cmd)).value;
    assert Encode(command, byte0, byte1) == Ok(bytes);
    assert bytes[n] == ByteSum(bytes[..n]) % 256 by {
      assert forall i :: 0 <= i < n ==> ParseHex(cmd[..n][i]) == Some(bytes[..n][i]);
      TextSumIsByteSum(cmd[..n], bytes[..n]);
      var sum := FieldSum(AsText(cmd[..n])) % 256;
      ByteTextIsZFilledHex(sum);
      assert ParseHex(cmd[n]) == Some(sum);
    }
  }
}
