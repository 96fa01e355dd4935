/** One request/response exchange with the set (`_cmd`): build and write
    the frame, read the reply with one retry, and turn the reply's
    response code into a return value or one of the library's errors. */
module Television {
  import opened Errors
  import opened Hex
  import opened Fields
  import opened Split
  import opened Frame
  import opened Serial

  /** The response code of a reply: the second two-digit group of its
      lowercase hex text. Codes 01 to 04 are the set's error answers;
      fewer than two groups is a garbled reply. The header byte (0x70) and
      the checksum byte are not looked at. */
  function Classify(response: seq<byte>): Outcome {
    var groups := NSplit(Hexlify(response));
    if |groups| < 2 then Raised(ResponseError)
    else
      var code := groups[1];
      if code == "01" then Raised(LimitOverError)
      else if code == "02" then Raised(LimitUnderError)
      else if code == "03" then Raised(CommandCancelled)
      else if code == "04" then Raised(ParseError)
      else Returned(code)
  }

  /** What the reply half of `_cmd` does with the connection's input. */
  datatype Exchange = Exchange(outcome: Outcome, events: seq<Event>, rest: Input)

  /** Read up to 6 bytes; only when that read is empty, read up to 3 more;
      no bytes at all is a ResponseError, otherwise the bytes are
      classified. */
  function Reply(input: Input): Exchange {
    var first := Take(input, 6);
    if first.data != [] then
      Exchange(Classify(first.data), [Received(6, first.data)], first.rest)
    else
      var second := Take(first.rest, 3);
      var events := [Received(6, first.data), Received(3, second.data)];
      if second.data == [] then Exchange(Raised(ResponseError), events, second.rest)
      else Exchange(Classify(second.data), events, second.rest)
  }

  // ---------------------------------------------------------------------
  // Properties of the reply

  /** The outcome is decided by the second byte alone: a reply of fewer
      than two bytes is a ResponseError, the bytes 1 to 4 are the four
      error answers, and any other byte is returned as its two lowercase
      hex digits. */
  lemma ClassifyByCode(response: seq<byte>)
    ensures Classify(response) == Raised(ResponseError) <==> |response| < 2
    ensures |response| >= 2 ==>
      && (Classify(response) == Raised(LimitOverError) <==> response[1] == 1)
      && (Classify(response) == Raised(LimitUnderError) <==> response[1] == 2)
      && (Classify(response) == Raised(CommandCancelled) <==> response[1] == 3)
      && (Classify(response) == Raised(ParseError) <==> response[1] == 4)
    ensures |response| >= 2 && !(1 <= response[1] <= 4) ==>
      Classify(response) == Returned(ByteText(response[1]))
  {
    var text := Hexlify(response);
    HexlifyLength(response);
    NSplitAt(text, 1);
    if |response| >= 2 {
      HexlifyAt(response, 1);
      var b := response[1];
      assert NSplit(text)[1] == ByteText(b);
      assert ByteText(1) == "01" && ByteText(2) == "02" && ByteText(3) == "03" && ByteText(4) == "04";
      ByteTextInjective(b, 1);
      ByteTextInjective(b, 2);
      ByteTextInjective(b, 3);
      ByteTextInjective(b, 4);
    }
  }

  /** A returned code is two lowercase hex digits standing for the second
      byte, and never one of the four error answers. */
  lemma ReturnedCode(response: seq<byte>)
    requires Classify(response).Returned?
    ensures |response| >= 2
    ensures var code := Classify(response).code;
      && |code| == 2 && AllLowerHex(code)
      && ParseHex(code) == Some(response[1])
      && code !in {"01", "02", "03", "04"}
  {
    ClassifyByCode(response);
    ByteTextIsZFilledHex(response[1]);
  }

  /** The header and checksum bytes of a reply, and anything after them,
      are not checked: replies that agree on their second byte are
      classified alike. */
  lemma ClassifyIgnoresFraming(r: seq<byte>, s: seq<byte>)
    requires |r| >= 2 && |s| >= 2 && r[1] == s[1]
    ensures Classify(r) == Classify(s)
  {
    ClassifyByCode(r);
    ClassifyByCode(s);
  }

  /** The first read asks for up to 6 bytes, and it is the only read
      exactly when it finds anything. */
  lemma ReplyFirstRead(input: Input)
    ensures Reply(input).events[0] == Received(6, Take(input, 6).data)
    ensures |Reply(input).events| == 1 <==> Available(input) != []
    ensures 1 <= |Reply(input).events| <= 2
  {
    if Take(input, 6).data != [] {
      OneRead(input);
    } else {
      TwoReads(input);
    }
    TakeEmpty(input, 6);
  }

  /** A read that finds bytes is the only one. */
  lemma OneRead(input: Input)
    requires Take(input, 6).data != []
    ensures Reply(input).events == [Received(6, Take(input, 6).data)]
  {
  }

  /** An empty first read is followed by one read of up to 3 bytes. */
  lemma TwoReads(input: Input)
    requires Take(input, 6).data == []
    ensures Reply(input).events == [Received(6, []), Received(3, Take(Take(input, 6).rest, 3).data)]
  {
  }

  /** When the first read finds bytes, it takes up to 6 of them, oldest
      first, those are classified, and the rest stays buffered. */
  lemma ReplyAnswered(input: Input)
    requires Available(input) != []
    ensures var x := Reply(input);
      var avail := Available(input);
      && x.events[0].data == avail[..if |avail| < 6 then |avail| else 6]
      && x.outcome == Classify(x.events[0].data)
      && x.events[0].data + x.rest.buffered == avail
  {
    TakeEmpty(input, 6);
  }

  /** When the first read finds nothing, the second read (up to 3 bytes)
      sees only the next arrival; if that is empty too the exchange is a
      ResponseError, otherwise what it read is classified. */
  lemma ReplyRetried(input: Input)
    requires Available(input) == []
    ensures var x := Reply(input);
      var next := if |input.arrivals| >= 2 then input.arrivals[1] else [];
      && |x.events| == 2 && x.events[1].size == 3
      && |x.events[1].data| == (if |next| < 3 then |next| else 3)
      && x.events[1].data + x.rest.buffered == next
      && x.outcome == (if next == [] then Raised(ResponseError) else Classify(x.events[1].data))
  {
    var first := Take(input, 6);
    TakeEmpty(input, 6);
    assert first.data == [];
    assert first.rest.buffered == [];
    var next := if |input.arrivals| >= 2 then input.arrivals[1] else [];
    assert Available(first.rest) == next by {
      if |input.arrivals| >= 2 {
        assert first.rest.arrivals[0] == input.arrivals[1];
      }
    }
    var second := Take(first.rest, 3);
    TakeEmpty(first.rest, 3);
    assert Reply(input).events[1] == Received(3, second.data);
  }

  /** A ResponseError comes back exactly when the read that ended the
      exchange brought fewer than two bytes. */
  lemma ReplyResponseError(input: Input)
    ensures var x := Reply(input);
      x.outcome == Raised(ResponseError) <==> |x.events[|x.events| - 1].data| < 2
  {
    var first := Take(input, 6);
    ClassifyByCode(first.data);
    ClassifyByCode(Take(first.rest, 3).data);
  }

  /** Reply 70 00 70 (accepted) returns "00"; reply 70 03 73 is a
      cancelled command. */
  lemma ClassifyExamples()
    ensures Classify([0x70, 0x00, 0x70]) == Returned("00")
    ensures Classify([0x70, 0x03, 0x73]) == Raised(CommandCancelled)
  {
    ClassifyByCode([0x70, 0x00, 0x70]);
    ClassifyByCode([0x70, 0x03, 0x73]);
    assert ByteText(0) == "00";
  }

  /** The television on one connection. */
  class SonyXBRHX909 {
    const conn: Channel

    constructor(conn: Channel)
      ensures this.conn == conn
    {
      this.conn := conn;
    }

    /** `_cmd`: nothing touches the connection when the frame cannot be
        built; otherwise the frame is written and flushed and the reply is
        read and classified. */
    method Cmd(command: seq<Field>, byte0: Option<Field>, byte1: Option<Field>) returns (outcome: Outcome)
      modifies conn
      ensures Encode(command, byte0, byte1).Err? ==>
        && outcome == Raised(Encode(command, byte0, byte1).error)
        && conn.log == old(conn.log) && conn.input == old(conn.input)
      ensures Encode(command, byte0, byte1).Ok? ==>
        var x := Reply(old(conn.input));
        && outcome == x.outcome
        && conn.input == x.rest
        && conn.log == old(conn.log) + [Wrote(Encode(command, byte0, byte1).value), Flushed] + x.events
    {
      var frame := BuildFrame(command, byte0, byte1);
      if frame.Err? {
        return Raised(frame.error);
      }
      conn.Write(frame.value);
      conn.FlushOutput();
      outcome := ReadReply();
    }

    /** The reply half of `_cmd`: read up to 6 bytes, retry once with up to
        3 if nothing came, then classify what was read. */
    method ReadReply() returns (outcome: Outcome)
      modifies conn
      ensures var x := Reply(old(conn.input));
        && outcome == x.outcome
        && conn.input == x.rest
        && conn.log == old(conn.log) + x.events
    {
      ghost var x := Reply(conn.input);
      var response := conn.Read(6);
      if |response| == 0 {
        ghost var first := response;
        response := conn.Read(3);
        assert conn.log == old(conn.log) + [Received(6, first), Received(3, response)];
      }
      assert conn.log == old(conn.log) + x.events && conn.input == x.rest;
      if |response| == 0 {
        return Raised(ResponseError);
      }
      assert x.outcome == Classify(response);

      var decoded := Hexlify(response);
      var groups := NSplit(decoded);
      if |groups| < 2 {
        return Raised(ResponseError);
      }
      var code := groups[1];
      if code == "01" {
        outcome := Raised(LimitOverError);
      } else if code == "02" {
        outcome := Raised(LimitUnderError);
      } else if code == "03" {
        outcome := Raised(CommandCancelled);
      } else if code == "04" {
        outcome := Raised(ParseError);
      } else {
        outcome := Returned(code);
      }
    }

    /** `power_on`: the standard power-on frame; its value is discarded, so
        only an error comes back. */
    method PowerOn() returns (failure: Option<Failure>)
      modifies conn
      ensures
        var x := Reply(old(conn.input));
        && failure == (if x.outcome.Raised? then Some(x.outcome.error) else None)
        && conn.input == x.rest
        && conn.log == old(conn.log) + [Wrote(POWER_ON_FRAME), Flushed] + x.events
    {
      var command := [Text("00"), Text("02"), Text("01")];
      PowerOnFrame(command);
      var outcome := Cmd(command, None, None);
      failure := if outcome.Raised? then Some(outcome.error) else None;
    }

    /** `theater_toggle`: a frame with its own header (81, then 96 as an
        int) and no padding. */
    method TheaterToggle() returns (outcome: Outcome)
      modifies conn
      ensures
        var x := Reply(old(conn.input));
        && outcome == x.outcome
        && conn.input == x.rest
        && conn.log == old(conn.log) + [Wrote(THEATER_TOGGLE_FRAME), Flushed] + x.events
    {
      var command, byte0, byte1 := [Num(3), Text("00"), Text("00")], Some(Text("81")), Some(Num(96));
      TheaterToggleFrame(command, byte0, byte1);
      outcome := Cmd(command, byte0, byte1);
    }
  }

  // ---------------------------------------------------------------------
  // Frames of the two modelled commands

  const POWER_ON_FRAME: seq<byte> := [0x8C, 0x00, 0x00, 0x02, 0x01, 0x8F]
  const THEATER_TOGGLE_FRAME: seq<byte> := [0x81, 0x60, 0x03, 0x00, 0x00, 0xE4]

  /** `power_on` sends 8C 00 00 02 01 8F: the default header, no padding
      (the headers were not given), and the checksum 0x8F. */
  lemma PowerOnFrame(command: seq<Field>)
    requires command == [Text("00"), Text("02"), Text("01")]
    ensures Encode(command, None, None) == Ok(POWER_ON_FRAME)
  {
    var cmd := ["8C", "00", "00", "02", "01", "8f"];
    PowerOnBody(command);
    PowerOnBytes(cmd, POWER_ON_FRAME);
    EncodeFromEntries(command, None, None, 2, cmd, POWER_ON_FRAME);
  }

  lemma PowerOnBytes(cmd: seq<string>, bytes: seq<byte>)
    requires cmd == ["8C", "00", "00", "02", "01", "8f"] && bytes == POWER_ON_FRAME
    ensures forall i :: 0 <= i < |cmd| ==> IsPair(cmd[i]) && ParseHex(cmd[i]) == Some(bytes[i])
    ensures bytes[5] == ByteSum(bytes[..5]) % 256 && cmd[5] == ByteText(bytes[5])
  {
    FrameEntries(cmd, bytes);
    assert bytes[..5] == [0x8C, 0x00, 0x00, 0x02, 0x01];
    assert ByteSum([0x01]) == 0x01;
    assert ByteSum([0x02, 0x01]) == 0x03;
    assert ByteSum([0x00, 0x02, 0x01]) == 0x03;
    assert ByteSum([0x00, 0x00, 0x02, 0x01]) == 0x03;
    assert ByteText(0x8F) == "8f" by { DigitTable(); }
  }

  lemma PowerOnBody(command: seq<Field>)
    requires command == [Text("00"), Text("02"), Text("01")]
    ensures ParseHex(Normalize(command[1])) == Some(2)
    ensures Body(command, None, None, 2) == ["8C", "00", "00", "02", "01"]
  {
    PairParse("02");
    assert NormalizeAll(command[2..]) == ["01"];
  }

  /** `theater_toggle` sends 81 60 03 00 00 E4: both headers given, the
      ints 96 and 3 become "60" and "03", no padding because the declared
      length 0 is below the data length, and the checksum 0xE4. */
  lemma TheaterToggleFrame(command: seq<Field>, byte0: Option<Field>, byte1: Option<Field>)
    requires command == [Num(3), Text("00"), Text("00")]
    requires byte0 == Some(Text("81")) && byte1 == Some(Num(96))
    ensures Encode(command, byte0, byte1) == Ok(THEATER_TOGGLE_FRAME)
  {
    var cmd := ["81", "60", "03", "00", "00", "e4"];
    TheaterToggleBody(command, byte0, byte1);
    TheaterToggleBytes(cmd, THEATER_TOGGLE_FRAME);
    EncodeFromEntries(command, byte0, byte1, 0, cmd, THEATER_TOGGLE_FRAME);
  }

  lemma TheaterToggleBytes(cmd: seq<string>, bytes: seq<byte>)
    requires cmd == ["81", "60", "03", "00", "00", "e4"] && bytes == THEATER_TOGGLE_FRAME
    ensures forall i :: 0 <= i < |cmd| ==> IsPair(cmd[i]) && ParseHex(cmd[i]) == Some(bytes[i])
    ensures bytes[5] == ByteSum(bytes[..5]) % 256 && cmd[5] == ByteText(bytes[5])
  {
    FrameEntries(cmd, bytes);
    assert bytes[..5] == [0x81, 0x60, 0x03, 0x00, 0x00];
    assert ByteSum([0x00]) == 0x00;
    assert ByteSum([0x00, 0x00]) == 0x00;
    assert ByteSum([0x03, 0x00, 0x00]) == 0x03;
    assert ByteSum([0x60, 0x03, 0x00, 0x00]) == 0x63;
    assert ByteText(0xE4) == "e4" by { DigitTable(); }
  }

  lemma TheaterToggleBody(command: seq<Field>, byte0: Option<Field>, byte1: Option<Field>)
    requires command == [Num(3), Text("00"), Text("00")]
    requires byte0 == Some(Text("81")) && byte1 == Some(Num(96))
    ensures ParseHex(Normalize(command[1])) == Some(0)
    ensures Body(command, byte0, byte1, 0) == ["81", "60", "03", "00", "00"]
  {
    PairParse("00");
    assert Normalize(Num(96)) == "60" by {
      DigitTable();
      assert HexDigits(6) == "6";
    }
    assert Normalize(Num(3)) == "03" by {
      DigitTable();
    }
    assert Header(byte0, DEFAULT_BYTE0) == "81";
    assert Header(byte1, DEFAULT_BYTE1) == "60";
    assert NormalizeAll(command[2..]) == ["00"];
    assert PadData(true, 0, ["00"]) == ["00"];
  }

  /** Each entry of a six-entry frame text is two hex digits standing for
      the matching byte. */
  lemma FrameEntries(cmd: seq<string>, bytes: seq<byte>)
    requires |cmd| == |bytes| == 6
    requires forall i :: 0 <= i < 6 ==>
      IsPair(cmd[i]) && DigitValue(cmd[i][0]) * 16 + DigitValue(cmd[i][1]) == bytes[i]
    ensures forall i :: 0 <= i < 6 ==> IsPair(cmd[i]) && ParseHex(cmd[i]) == Some(bytes[i])
  {
    forall i | 0 <= i < 6 ensures ParseHex(cmd[i]) == Some(bytes[i]) {
      PairParse(cmd[i]);
    }
  }
}
