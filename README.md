# Sony XBR television serial protocol: frame codec and exchange

This project models the core of `xbrhx909`, a Python 2 library that drives a
Sony XBR television over an RS-232 serial cable. The core is the class
`SonyXBRHX909` in `src/xbrhx909/command.py`, and it has three parts:

- `_chksum` adds up the fields of a command. The fields are either all
  ints or all hex text. It returns the sum mod 256 in the same form as its
  input.
- `_nsplit` cuts a string into groups of two characters.
- `_cmd` performs one exchange with the set. It builds the frame: header
  pair, category, length, data and checksum. Int fields become two hex
  digits, and the data may be left-padded with `00`. The joined hex text
  is converted to raw bytes (`a2b_hex`). The frame is written and the
  output flushed. It then reads up to 6 bytes, and reads up to 3 more
  only if nothing came. The reply is turned back into lowercase hex text
  (`b2a_hex`), and the second two-digit group, the response code, is
  classified: `01` to `04` raise the library's errors, and any other code
  is returned.

Modules, leaves first:

- `errors.dfy` (`Errors`): the exception classes, as constructors of
  `Failure`. It also holds `Result`, `Option` and `Outcome`, which is a
  returned code or a raised failure.
- `hex.dfy` (`Hex`): the Python conversions the codec relies on. These
  are `hex(n)[2:]`, `zfill(2)`, `int(s, 16)`, and Base 16 (section 8 of
  RFC 4648) as `a2b_hex`/`b2a_hex`. The file proves their round trips.
- `fields.dfy` (`Fields`): a field is an int or text. It defines
  normalisation and Python truthiness.
- `checksum.dfy` (`Checksum`): `_chksum`, and a reference definition of
  what it means (the sum of all field values mod 256).
- `split.dfy` (`Split`): `_nsplit`, and `''.join` as its inverse.
- `frame.dfy` (`Frame`): building the frame.
  - `Layout` is the `cmd` list and `Encode` is the bytes written.
  - `BuildCmd` builds the `cmd` list imperatively, with the header step
    (`HeaderPair`) and the `newdata` loop (`NormalizeData`), and is proved
    equal to `Layout`. `BuildFrame` adds `a2b_hex` and is proved equal to
    `Encode`.
- `channel.dfy` (`Serial`): the serial connection as a class. It keeps an
  event log (`Wrote`, `Flushed`, `Received`) and a scripted input. The
  input holds the bytes already buffered, plus the chunk that arrives
  during each read before its timeout.
- `television.dfy` (`Television`): the rest of `_cmd` and two of the
  commands that use it.
  - `SonyXBRHX909.Cmd` holds the connection, builds and writes the frame
    and flushes. `SonyXBRHX909.ReadReply` is the rest of `_cmd`: the read,
    the retry and the classification.
  - `Reply` and `Classify` are the reference definitions of what the
    exchange does with the input.

Where the code and the library's own comments differ, the model follows
the code:

- Padding. `std_cmd` stays true only when both header arguments are
  truthy. So padding happens only for calls with explicit headers, not for
  the default-header "standard" commands that the name and the comment at
  `command.py:194` suggest. `Frame.LayoutFrame` states the rule as the
  code has it.
- Wire bytes. The names are swapped at import (`a2b_hex as hexencode`,
  `b2a_hex as hexdecode`). So raw bytes go on the wire, not ASCII hex.
  The reply is turned into hex text before it is split.
- Text that is not hex. Non-hex text is rejected with a plain
  `ValueError` (`MalformedHex`) before `EncodeError` can arise. In the
  length field it is rejected by `int(length, 16)` (`command.py:179`).
  In any other field or header it is rejected by `int(c, 16)` inside
  `_chksum` (`command.py:129`). `EncodeError` comes only from `a2b_hex`,
  for example on odd-length text from an int above 255.

## Model

| member | source | states |
|---|---|---|
| `Hex.HexDigitsValue` | src/xbrhx909/command.py:163 | `hex(n)[2:]` is a non-empty run of lowercase hex digits whose value is n |
| `Hex.ByteTextIsZFilledHex` | src/xbrhx909/command.py:143 | for a byte, `hex(b)[2:]` zero-filled to width 2 is exactly the two lowercase digits `b2a_hex` writes for b, and they read back as b |
| `Hex.ByteTextInjective` | src/xbrhx909/command.py:244-251 | two bytes have the same two-digit text exactly when they are equal |
| `Hex.HexlifyAt` | src/xbrhx909/command.py:235 | `b2a_hex` gives two characters per byte, and characters 2k and 2k+1 are the text of byte k |
| `Hex.UnhexlifyHexlify` | src/xbrhx909/command.py:8 | `a2b_hex(b2a_hex(b)) == b` for every byte string |
| `Hex.HexlifyUnhexlify` | src/xbrhx909/command.py:8 | whatever `a2b_hex` accepts comes back from `b2a_hex` in lowercase, with one byte per two characters |
| `Hex.UnhexlifyDefined` | src/xbrhx909/command.py:211-214 | `a2b_hex` succeeds exactly on text of even length made only of hex digits |
| `Fields.NormalizeNum` | src/xbrhx909/command.py:161-191 | an int field becomes lowercase hex text that `int(x, 16)` reads back as the same number; exactly two digits when it is a byte, more than two otherwise |
| `Checksum.ParseTextsValues` | src/xbrhx909/command.py:128-130 | the list comprehension of `int(c, 16)` succeeds exactly when every field is hex text, and it preserves the sum of the field values |
| `Checksum.SumNumsValues` | src/xbrhx909/command.py:133 | `sum` succeeds exactly on all-int fields and gives the sum of their values |
| `Checksum.ChecksumIsSumMod256` | src/xbrhx909/command.py:116-143 | the checksum succeeds exactly on a non-empty list that is all hex text or all ints; for text it is the two lowercase hex digits of (sum of values) mod 256, and for ints it is that number |
| `Checksum.ChecksumErrors` | src/xbrhx909/command.py:125-133 | it fails on an empty list exactly (IndexError), otherwise only on mixed forms (with a witness of the mix) or on text that is not hex (with a witness field) |
| `Split.NSplitAt` | src/xbrhx909/command.py:145-148 | `_nsplit(s)` has ceil(len(s)/2) groups, and group k is `s[2k:2k+2]` |
| `Split.NSplitJoin` | src/xbrhx909/command.py:145-148 | joining the groups gives back s |
| `Frame.BuildFrame` | src/xbrhx909/command.py:150-214 | building the frame and applying `a2b_hex` returns exactly `Encode` of its arguments, including which error it raises |
| `Frame.BuildCmd` | src/xbrhx909/command.py:150-205 | the imperative `cmd` building (headers, normalisation loop, padding, checksum) returns exactly `Layout` of its arguments, including which error it raises |
| `Frame.HeaderPair` | src/xbrhx909/command.py:151-166 | each header is the given value when truthy and its default otherwise, and `std_cmd` stays true exactly when both are given |
| `Frame.NormalizeData` | src/xbrhx909/command.py:183-190 | the `newdata` loop keeps the number and order of the data fields and normalises each one |
| `Frame.PadDataShape` | src/xbrhx909/command.py:192-198 | padding only puts `00` groups in front and keeps the data, in order, at the end |
| `Frame.TextChecksum` | src/xbrhx909/command.py:203-205 | the checksum of the frame's texts is the two-digit text of their byte sum mod 256 when all are hex, and MalformedHex otherwise |
| `Frame.LayoutFrame` | src/xbrhx909/command.py:150-205 | the `cmd` list holds, in order, the two headers (each given value if truthy, else `8C`/`00`), the category and the length normalised, exactly `required - len(data) - 1` `00` groups when both headers are given and the data is short and none otherwise, the data, and the lowercase text of the mod-256 sum of all the preceding entries |
| `Frame.LayoutErrors` | src/xbrhx909/command.py:150-205 | fewer than two fields is exactly the MissingField case; otherwise the layout succeeds exactly when both headers and every field are hex text after normalisation, and fails only with MalformedHex |
| `Frame.PaddedLength` | src/xbrhx909/command.py:192-201 | with both headers given and no surplus data, the frame has 4 + declared length entries: data plus checksum fill the declared length |
| `Frame.EncodeText` | src/xbrhx909/command.py:210-214 | EncodeError arises exactly when the joined text has odd length; otherwise `b2a_hex` of the written bytes is the joined text in lowercase |
| `Frame.LayoutPairs` | src/xbrhx909/command.py:167-205 | when every field and every given header is one byte, every frame entry is two hex digits and the last is the text of the mod-256 sum of the others |
| `Frame.EncodeFromEntries` | src/xbrhx909/command.py:200-214 | when every entry of a frame text is two hex digits for its byte, the entries before the last are the body, and the last is the text of the mod-256 sum of the other bytes, then that text is the layout and those bytes are what is written |
| `Frame.FrameBytes` | src/xbrhx909/command.py:167-212 | when every field and every given header is one byte, one byte is written per frame entry, each byte is the value of its entry, and the last byte is the mod-256 sum of all the bytes before it |
| `Serial.Take` | src/xbrhx909/command.py:222 | a read returns at most the requested number of bytes; it comes back short only when nothing stays buffered; and it uses up exactly one arrival |
| `Serial.TakeSplits` | src/xbrhx909/command.py:222 | the bytes a read returns, followed by what stays buffered, are everything the read could see, in order |
| `Serial.TakeEmpty` | src/xbrhx909/command.py:225 | a read comes back empty exactly when nothing is available or no byte is asked for |
| `Serial.Channel.constructor` | src/xbrhx909/command.py:111-113 | a new connection has written nothing, has nothing buffered, and will see the given arrivals |
| `Serial.Channel.Write` | src/xbrhx909/command.py:217 | the bytes are logged as written, and the input is unchanged |
| `Serial.Channel.FlushOutput` | src/xbrhx909/command.py:218 | the flush is logged, and the input is unchanged |
| `Serial.Channel.Read` | src/xbrhx909/command.py:222 | the bytes returned and the new input are those of `Take`, and the read is logged with its size and data |
| `Television.ClassifyByCode` | src/xbrhx909/command.py:234-253 | a reply of fewer than two bytes is ResponseError, and only such a reply is; second byte 1, 2, 3 or 4 raises LimitOverError, LimitUnderError, CommandCancelled or ParseError respectively (both directions); any other second byte is returned as its two lowercase hex digits |
| `Television.ReturnedCode` | src/xbrhx909/command.py:237-253 | a returned code is two lowercase hex digits, stands for the reply's second byte, and is never `01` to `04` |
| `Television.ClassifyIgnoresFraming` | src/xbrhx909/command.py:220-241 | the header and checksum bytes are never checked: replies that agree on the second byte are classified alike |
| `Television.ReplyFirstRead` | src/xbrhx909/command.py:222-228 | the first read asks for 6 bytes, and there is a second read exactly when the first found nothing |
| `Television.ReplyAnswered` | src/xbrhx909/command.py:220-253 | when the first read finds bytes, it returns the oldest 6 or fewer, those are classified, and the rest stays buffered |
| `Television.ReplyRetried` | src/xbrhx909/command.py:224-232 | when the first read finds nothing, the second asks for 3 bytes and sees only the next arrival; if that is empty the outcome is ResponseError, otherwise what it read is classified |
| `Television.ReplyResponseError` | src/xbrhx909/command.py:225-241 | ResponseError is the outcome exactly when the read that ended the exchange brought fewer than two bytes |
| `Television.ClassifyExamples` | src/xbrhx909/command.py:237-253 | reply 70 00 70 returns `00`, and reply 70 03 73 is CommandCancelled |
| `Television.PowerOnFrame` | src/xbrhx909/command.py:287-288 | `power_on` writes 8C 00 00 02 01 8F: the default headers, no padding, and the checksum 8F |
| `Television.TheaterToggleFrame` | src/xbrhx909/command.py:275-277 | `theater_toggle` writes 81 60 03 00 00 E4: the given headers, the ints 3 and 96 as hex, no padding, and the checksum E4 |
| `Television.SonyXBRHX909.constructor` | src/xbrhx909/command.py:104-114 | the television keeps the connection it was given |
| `Television.SonyXBRHX909.Cmd` | src/xbrhx909/command.py:150-253 | when the frame cannot be built, its error is raised and the connection is untouched (nothing written, nothing read); otherwise exactly the encoded frame is written and flushed, the reads follow `Reply`, the outcome is `Reply`'s, and the unread input is what `Reply` leaves |
| `Television.SonyXBRHX909.ReadReply` | src/xbrhx909/command.py:220-253 | the reads and their log entries, the outcome and the unread input are exactly those of `Reply` on the input before the reads |
| `Television.SonyXBRHX909.PowerOn` | src/xbrhx909/command.py:287-288 | writes and flushes the power-on frame, performs the reply exchange, and returns only the error raised, if any, since the code is discarded |
| `Television.SonyXBRHX909.TheaterToggle` | src/xbrhx909/command.py:275-277 | writes and flushes the theater-toggle frame and returns the outcome of the reply exchange |

## Left out

- Opening the serial port (`command.py:104-114`): baud rate, parity, stop bits and the device node are library I/O. The model's connection is an object that logs writes and flushes and serves reads from a script.
- The read timeout `command_interval` (`command.py:66`): its only logical effect is that a read may return fewer bytes than asked. The scripted arrivals model that.
- What `flushOutput` does inside the serial driver: it is logged as an event and has no other effect in the model.
- The unused imports `copy` and `sleep` (`command.py:7`, `command.py:10`), and the attribute `self.c`, which only aliases the connection.
- The command tables `input_groups`, `picture_modes`, `cinemotion` and `wide_modes` (`command.py:72-102`): constant configuration data.
- The other convenience methods (`command.py:255-449`): each passes a fixed list to `_cmd`. `power_on` and `theater_toggle` are modelled as representatives.
- Exception message text: a failure is only its class.
- Hex.ParseHex: models `int(s, 16)` on a non-empty run of hex digits only. The forms Python also accepts are left out: surrounding whitespace, a sign, a `0x` prefix. Fields carrying them are treated as malformed.
- Fields.Normalize: int fields are natural numbers. Negative ints (`hex(-1)` is `-0x1`) are left out.
- Python 2 long fields are left out. `isinstance(x, int)` is false for a long (`command.py:162-191`), so a long field is never normalised. The call then fails with a TypeError: at `int(length, 16)` (`command.py:179`) when the long is the length; at `sum` (`command.py:133`) when the long is the first header; otherwise at `int(c, 16)` in `_chksum` (`command.py:129`).
- Checksum.ChecksumIsSumMod256: assumes every text field's value fits a Python 2 int (at most `sys.maxint`). Above that, `int(c, 16)` gives a long, and `hex(binsum)[2:4]` (`command.py:143`) then reads `'0L'` to `'fL'` when the remainder is below 16, instead of the two hex digits the contract states.
- Frame.TextChecksum: the same assumption that text values fit a Python 2 int; past `sys.maxint` the source's checksum text can end in `L`.
- Frame.LayoutFrame: the same assumption; past `sys.maxint` the source's last entry can be `'0L'` to `'fL'` rather than the text of the sum.
- Frame.EncodeText: the same assumption; past `sys.maxint` the `L` in the checksum makes `a2b_hex` raise TypeError, so the source raises EncodeError (`command.py:211-214`) on even-length text too.
- Python 2's `len(response) is 0` is modelled as a length test against zero, the behaviour of CPython's small-int cache.
- Other field types the code would meet with a TypeError (floats, None inside the command) are not modelled: a field is an int or a string.
