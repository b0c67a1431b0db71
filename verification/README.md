# DIDI container — a Dafny model

The DIDI library stores a text in a small binary container. `write_didi` looks
for a search string in the text, run-length encodes the text, and writes the
container. `read_didi` reads it back and decodes the text. `sniffer` reads only
the header: the stored search string and the "found" flag.

The container layout:

| offset | size | field |
|---|---|---|
| 0 | 4 | magic number `DIDI` |
| 4 | 1 | length `n` of the search string's UTF-8 bytes, cut to eight bits |
| 5 | `n` | the search string, UTF-8 |
| 5 + `n` | 1 | flag: 1 if the text contains the search string, else 0 |
| 6 + `n` | rest | the run-length encoding of the text, UTF-8 |

The run-length code writes each maximal run of one character as the character
followed by the run's length in decimal. The decoder reads the encoding two
characters at a time, as a character and one decimal digit.

The model has four modules:

- `Wrappers` (`wrappers.dfy`) holds `Option`.
- `Utf8` (`utf8.dfy`) holds bytes and strict UTF-8 as Rust's `as_bytes` and
  `String::from_utf8` use it. It covers overlong forms, surrogates and the
  U+10FFFF ceiling, following Table 3-7 of the Unicode Standard.
- `Rle` (`rle.dfy`) holds `rle_encode` and `rle_decode`. Each is a method with
  the source's loop, proved equal to a specification function (`Encoding`,
  `Decoding`). The properties of the code are proved about those functions.
- `Didi` (`didi.dfy`) holds the container. A file is a byte sequence. `Writer`
  is a class whose `WriteAll` appends to it. `Reader` is a class with a read
  position, modelling `read_exact`, and reading to the end, which together
  with the UTF-8 check after it models `read_to_string`. `WriteDidi`, `Sniffer` and
  `ReadDidi` follow the source's call sequence. They are proved equal to the
  specification functions `Layout`, `HeaderOf` and `RecordOf`.

Two consequences of the code are proved rather than assumed away:

- A run of ten or more equal characters is written with a multi-digit count,
  and the decoder reads only one digit per pair. For example, ten 'a's encode
  to "a10", which decodes to "a" (`Rle.LongRunNotRecovered`). The round trips
  therefore require every run to have at most nine characters.
- The length byte keeps only the low eight bits of the search string's byte
  length. For a search string of more than 255 bytes, both the sniffer and the
  reader either fail or return a different search string
  (`Didi.LongSearchNotRecovered`).

## Model

| member | source | states |
|---|---|---|
| Utf8.Encode | src/lib.rs:58 | the UTF-8 form of a string, as `as_bytes` gives it, takes one to four bytes per character |
| Utf8.Decode | src/lib.rs:87-88 | `String::from_utf8` (also used for the search string at src/lib.rs:126-127 and inside `read_to_string` at :95): on success the text has between a quarter of the byte count and the byte count of characters; DecodeEncode and EncodeDecode state that it is the exact inverse of `as_bytes` |
| Utf8.DecodeFirst | src/lib.rs:87-88 | the first scalar value of a byte string, or failure; on success it consumes between 1 and the available number of bytes |
| Utf8.DecodeFirstEncodeChar | src/lib.rs:87-88 | decoding the UTF-8 form of one character, followed by anything, gives that character and consumes exactly its bytes |
| Utf8.DecodeEncode | src/lib.rs:87-88 | `from_utf8` of the bytes of any string succeeds and gives the string back |
| Utf8.EncodeCharDecodeFirst | src/lib.rs:87-88 | the character the decoder reads re-encodes to exactly the bytes it consumed |
| Utf8.EncodeDecode | src/lib.rs:87-88 | whatever `from_utf8` accepts re-encodes to its input, so the decoder accepts only canonical UTF-8 |
| Rle.Repeat | src/lib.rs:40 | `repeat` gives exactly `n` characters, each equal to `c` |
| Rle.DigitValue | src/lib.rs:39 | `to_digit(10)` is defined only on '0' to '9' and gives a value from 0 to 9 |
| Rle.DigitRoundTrip | src/lib.rs:39 | each digit character is the digit of its own value, so `to_digit(10)` is one to one |
| Rle.Decimal | src/lib.rs:20 | the count `format!` writes is a non-empty string of decimal digits; DecimalMeaning states which number it denotes |
| Rle.DecimalMeaning | src/lib.rs:20 | `format!` writes a count as decimal digits that denote it, with no leading zero, in one character exactly when the count is at most nine |
| Rle.RleEncode | src/lib.rs:11-28 | the loop's output equals `Encoding(data)`: the maximal runs of the input, each as its character then its decimal length |
| Rle.RunsMaximal | src/lib.rs:14-25 | the runs the loop tracks are maximal (non-empty, neighbours differ) and spell out the input; the last run ends with the input's last character |
| Rle.MaximalIff | src/lib.rs:17-23 | maximality holds exactly when every run is non-empty and neighbouring runs have different characters |
| Rle.RunsUnique | src/lib.rs:14-25 | any maximal decomposition of a string is the one the loop builds |
| Rle.EncodeEmpty | src/lib.rs:14-27 | the empty string encodes to the empty string |
| Rle.RleDecode | src/lib.rs:34-44 | the loop's output equals `Decoding(data)`: each (character, digit) pair expanded; failure where a count is not a digit |
| Rle.DecodingDefined | src/lib.rs:37-41 | decoding succeeds exactly when every count position (odd index) holds a decimal digit; otherwise `unwrap` panics |
| Rle.DecodingLength | src/lib.rs:37-41 | a well-formed encoding decodes to as many characters as the sum of its counts |
| Rle.DecodingDropsTrailing | src/lib.rs:37-38 | a last character with no count after it is ignored |
| Rle.RoundTrip | src/lib.rs:11-44 | when no run is longer than nine characters, decoding the encoding gives the input back |
| Rle.EncodeExample | src/lib.rs:141-144 | "aaabbcccc" encodes to "a3b2c4" |
| Rle.DecodeExample | src/lib.rs:146-150 | "a3b2c4" decodes to "aaabbcccc" |
| Rle.LongRunNotRecovered | src/lib.rs:11-44 | for example, ten 'a's encode to "a10", which decodes to "a": a run longer than nine can fail the round trip |
| Didi.MagicIsDidi | src/lib.rs:4 | the magic number is the four bytes of the text "DIDI" |
| Didi.Contains | src/lib.rs:52 | `contains`: a search string that starts the text is found, and a found string is never longer than the text |
| Didi.ContainsIff | src/lib.rs:52 | `contains` holds exactly when the search string occurs at some index of the text |
| Didi.FlagByte | src/lib.rs:59 | `as u8` on the flag gives 0 or 1, non-zero exactly when the flag is true, which is what both readers test with `!= 0` |
| Didi.Writer.constructor | src/lib.rs:55 | a newly created file is empty |
| Didi.Writer.WriteAll | src/lib.rs:56-60 | `write_all` appends the whole buffer and changes nothing else |
| Didi.WriteDidi | src/lib.rs:51-63 | the file written is `Layout(data, search)`: magic, length byte, search string, flag, encoded text |
| Didi.LayoutOffsets | src/lib.rs:55-60 | the written file has the magic at 0, the length modulo 256 at 4, the search bytes at 5, the flag (1 exactly when the text contains the search string) at 5+n, and the encoded text from 6+n |
| Didi.Reader.constructor | src/lib.rs:70 | an opened file is read from its first byte |
| Didi.Reader.ReadExact | src/lib.rs:73 | `read_exact` returns the next `n` bytes and advances by `n`, or fails with end of file when fewer remain |
| Didi.Reader.ReadToEnd | src/lib.rs:95 | reading to the end returns every remaining byte; `read_to_string` is this followed by the UTF-8 check that ReadDidi makes with Decode |
| Didi.Sniffer | src/lib.rs:107-135 | the sniffer's result is `HeaderOf(file)`: the same checks in the same order, each failing with its error |
| Didi.ReadDidi | src/lib.rs:69-100 | the reader's result is `RecordOf(file)`: the header checks, then the payload as UTF-8, then run-length decoded |
| Didi.ReadFrame | src/lib.rs:119-133 | for a file whose length byte matches its search bytes, the sniffer fails only on invalid UTF-8 and otherwise returns the decoded string and the flag |
| Didi.SniffRoundTrip | src/lib.rs:107-135 | sniffing a written file gives back the search string and whether the text contains it (search string up to 255 bytes) |
| Didi.PayloadRoundTrip | src/lib.rs:94-95 | the bytes after the flag of a written file decode as UTF-8 to the run-length encoding of the text |
| Didi.RecordFrame | src/lib.rs:94-99 | once the header is read, the reader returns the decoded payload with the header's string and flag |
| Didi.ReadRoundTrip | src/lib.rs:69-100 | reading a written file gives back the text, the search string and the flag (search string up to 255 bytes, runs up to nine) |
| Didi.BadMagicRejected | src/lib.rs:72-79 | a file whose first four bytes are not "DIDI" is rejected by both readers as invalid data |
| Didi.TruncatedRejected | src/lib.rs:110-130 | a file too short for the length byte, the declared string or the flag is rejected by both readers; too short for the magic or the string means end of file |
| Didi.HeaderOfOk | src/lib.rs:119-133 | the sniffer succeeds exactly when the file has the magic, the length byte, that many bytes of valid UTF-8 and a flag byte; it then returns that string and "flag is not zero" |
| Didi.ReadAgreesWithSniff | src/lib.rs:69-92 | whenever the reader succeeds, the sniffer succeeds with the same search string and flag |
| Didi.SniffIgnoresPayload | src/lib.rs:129-134 | appending anything after the flag byte never changes what the sniffer returns |
| Didi.LongSearchNotRecovered | src/lib.rs:57 | for a search string of more than 255 bytes, whenever the sniffer or the reader succeeds on the written file, the search string it returns differs from the one written |
| Didi.WriteReadExample | src/lib.rs:153-162 | writing "aaabbccccxyz" with "xyz" and reading it back gives the text, "xyz" and true |
| Didi.ExampleMissing | src/lib.rs:171 | "abccc" does not occur in "aaabbcccc" |
| Didi.SniffExample | src/lib.rs:165-172 | writing "aaabbcccc" with "abccc" and sniffing gives "abccc" and false |

## Left out

- Files, `File::create`, `File::open` and the buffering of `BufWriter` and `BufReader` are not modelled. A file is its byte sequence, so "file not found" and other I/O errors do not arise.
- Rle.RleDecode: the `unwrap` panic on a non-digit count is modelled as a `None` result. `Didi.ReadDidi` turns it into the error `CountNotDigit`; the source aborts instead.
- Rle.RleEncode: counts are unbounded. The source's count is a 32-bit integer, so runs longer than 2^31 - 1 characters are not modelled.
- Didi.Reader.ReadExact: after a short read, Rust leaves the read position unspecified; the model moves it to the end. Neither reader reads again after such a failure.
- Didi.Contains: `str::contains` compares bytes; the model compares characters. For valid UTF-8 the two agree, but that is not proved here.
- Error messages and the wrapped `FromUtf8Error` are not modelled; only the kind of each error is.
- The repository's example programs only call these functions; they are not part of this model.
