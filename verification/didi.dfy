/**
 * The DIDI container: a file holding a search string, a flag recording whether
 * that string occurs in the original data, and the run-length encoding of the
 * data.
 *
 *   offset   size  field
 *   0        4     magic "DIDI"
 *   4        1     length n of the search string's bytes (truncated to 8 bits)
 *   5        n     the search string, UTF-8
 *   5 + n    1     flag: 1 if the data contains the search string, else 0
 *   6 + n    rest  the run-length encoding of the data, UTF-8
 *
 * A file is a byte sequence: the writer appends to one, the readers move a
 * cursor over one.
 */
module Didi {
  import opened Wrappers
  import opened Utf8
  import Rle

  /** The magic number, the bytes of "DIDI". */
  const Magic: seq<Byte> := [0x44, 0x49, 0x44, 0x49]

  /** The magic number is the text "DIDI", stored as its bytes. */
  lemma {:induction false} MagicIsDidi()
    ensures Magic == Encode("DIDI")
    ensures Decode(Magic) == Some("DIDI")
  {
    DecodeEncode("DIDI");
  }

  /** The ways reading a container fails. */
  datatype Error =
    | UnexpectedEof   // `read_exact` found fewer bytes than it needs (io::ErrorKind::UnexpectedEof)
    | InvalidMagic    // the first four bytes are not the magic number (io::ErrorKind::InvalidData)
    | InvalidUtf8     // the search string or the payload is not UTF-8 (io::ErrorKind::InvalidData)
    | CountNotDigit   // the payload has a non-digit count; the source panics in `rle_decode`

  datatype Result<T> = Ok(value: T) | Err(error: Error)

  /** What `sniffer` returns: the stored search string and flag. */
  datatype Header = Header(search: string, found: bool)

  /** What `read_didi` returns: the decoded data, the search string and the flag. */
  datatype Record = Record(data: string, search: string, found: bool)

  // ---------------------------------------------------------------------------
  // Substring search

  /** `q` occurs in `d` starting at index `i`. */
  predicate OccursAt(d: string, q: string, i: int)
  {
    0 <= i && i + |q| <= |d| && d[i..i + |q|] == q
  }

  /** `str::contains`: `q` is a prefix of some suffix of `d` (always true for an empty `q`). */
  function Contains(d: string, q: string): (r: bool)
    ensures q <= d ==> r
    ensures r ==> |q| <= |d|
    decreases |d|
  {
    q <= d || (d != [] && Contains(d[1..], q))
  }

  /** Contains is exactly "occurs at some index". */
  lemma {:induction false} ContainsIff(d: string, q: string)
    ensures Contains(d, q) <==> exists i :: OccursAt(d, q, i)
    decreases |d|
  {
    if q <= d {
      assert OccursAt(d, q, 0);
    } else if d == [] {
      assert forall i :: !OccursAt(d, q, i);
    } else {
      ContainsIff(d[1..], q);
      if i :| OccursAt(d[1..], q, i) {
        assert d[1..][i..i + |q|] == d[i + 1..i + 1 + |q|];
        assert OccursAt(d, q, i + 1);
      }
      if i :| OccursAt(d, q, i) {
        assert i != 0;
        assert d[1..][i - 1..i - 1 + |q|] == d[i..i + |q|];
        assert OccursAt(d[1..], q, i - 1);
      }
    }
  }

  // ---------------------------------------------------------------------------
  // The file as the format lays it out

  /** The flag byte for a boolean: `b as u8`. */
  function FlagByte(b: bool): (r: Byte)
    ensures r <= 1 && (r != 0 <==> b)
  {
    if b then 1 else 0
  }

  /** The bytes `write_didi` stores for `data` and `search`. */
  function Layout(data: string, search: string): seq<Byte>
  {
    var q := Encode(search);
    Magic + [|q| % 256] + q + [FlagByte(Contains(data, search))] + Encode(Rle.Encoding(data))
  }

  /**
   * What `sniffer` returns for a file, read off the offset table: too short for
   * the magic, wrong magic, too short for the length byte, too short for the
   * declared string, string not UTF-8, too short for the flag, or the header.
   */
  function HeaderOf(f: seq<Byte>): Result<Header>
  {
    if |f| < 4 then Err(UnexpectedEof)
    else if f[..4] != Magic then Err(InvalidMagic)
    else if |f| < 5 then Err(UnexpectedEof)
    else
      var n := f[4] as int;
      if |f| < 5 + n then Err(UnexpectedEof)
      else match Decode(f[5..5 + n])
        case None => Err(InvalidUtf8)
        case Some(q) =>
          if |f| < 6 + n then Err(UnexpectedEof)
          else Ok(Header(q, f[5 + n] != 0))
  }

  /**
   * What `read_didi` returns for a file: the header as HeaderOf reads it, then
   * every byte after the flag as UTF-8 text, run-length decoded.
   */
  function RecordOf(f: seq<Byte>): Result<Record>
  {
    match HeaderOf(f)
    case Err(e) => Err(e)
    case Ok(h) =>
      match Decode(f[6 + f[4] as int..])
      case None => Err(InvalidUtf8)
      case Some(text) =>
        match Rle.Decoding(text)
        case None => Err(CountNotDigit)
        case Some(data) => Ok(Record(data, h.search, h.found))
  }

  // ---------------------------------------------------------------------------
  // The file as the source handles it

  /** A file being written through a buffered writer: the bytes written so far. */
  class Writer {
    var bytes: seq<Byte>

    /** `File::create`: an empty (truncated) file. */
    constructor ()
      ensures bytes == []
    {
      bytes := [];
    }

    /** `write_all`: appends `buf`. */
    method WriteAll(buf: seq<Byte>)
      modifies this
      ensures bytes == old(bytes) + buf
    {
      bytes := bytes + buf;
    }
  }

  /** A file opened for reading: its bytes and the read position. */
  class Reader {
    const bytes: seq<Byte>
    var pos: nat

    ghost predicate Valid()
      reads this
    {
      pos <= |bytes|
    }

    /** `File::open`: positioned at the start. */
    constructor (file: seq<Byte>)
      ensures Valid() && bytes == file && pos == 0
    {
      bytes := file;
      pos := 0;
    }

    /** `read_exact`: the next `n` bytes, or None (UnexpectedEof) when fewer remain. */
    method ReadExact(n: nat) returns (r: Option<seq<Byte>>)
      requires Valid()
      modifies this
      ensures Valid()
      ensures old(pos) + n <= |bytes| ==> r == Some(bytes[old(pos)..old(pos) + n]) && pos == old(pos) + n
      ensures old(pos) + n > |bytes| ==> r == None && pos == |bytes|
    {
      if pos + n <= |bytes| {
        r := Some(bytes[pos..pos + n]);
        pos := pos + n;
      } else {
        r := None;
        pos := |bytes|;
      }
    }

    /**
     * Every remaining byte. `read_to_string` is this followed by the UTF-8
     * check, which ReadDidi performs with Decode.
     */
    method ReadToEnd() returns (r: seq<Byte>)
      requires Valid()
      modifies this
      ensures Valid() && r == bytes[old(pos)..] && pos == |bytes|
    {
      r := bytes[pos..];
      pos := |bytes|;
    }
  }

  /** `write_didi`: the bytes of the file it creates. */
  method WriteDidi(data: string, search: string) returns (file: seq<Byte>)
    ensures file == Layout(data, search)
  {
    var found := Contains(data, search);
    var encoded := Rle.RleEncode(data);
    var q := Encode(search);
    var w := new Writer();
    w.WriteAll(Magic);
    w.WriteAll([|q| % 256]);
    w.WriteAll(q);
    w.WriteAll([FlagByte(found)]);
    assert w.bytes == Magic + [|q| % 256] + q + [FlagByte(found)];
    w.WriteAll(Encode(encoded));
    file := w.bytes;
  }

  /** `sniffer`: reads the magic, the length, the search string and the flag, and stops. */
  method Sniffer(file: seq<Byte>) returns (r: Result<Header>)
    ensures r == HeaderOf(file)
  {
    var f := new Reader(file);
    var magic := f.ReadExact(4);
    if magic.None? {
      return Err(UnexpectedEof);
    }
    if magic.value != Magic {
      return Err(InvalidMagic);
    }
    var length := f.ReadExact(1);
    if length.None? {
      return Err(UnexpectedEof);
    }
    var n := length.value[0] as nat;
    var searchBytes := f.ReadExact(n);
    if searchBytes.None? {
      return Err(UnexpectedEof);
    }
    var search := Decode(searchBytes.value);
    if search.None? {
      return Err(InvalidUtf8);
    }
    var flag := f.ReadExact(1);
    if flag.None? {
      return Err(UnexpectedEof);
    }
    r := Ok(Header(search.value, flag.value[0] != 0));
  }

  /** `read_didi`: the header as `sniffer` reads it, then the rest of the file decoded. */
  method ReadDidi(file: seq<Byte>) returns (r: Result<Record>)
    ensures r == RecordOf(file)
  {
    var f := new Reader(file);
    var magic := f.ReadExact(4);
    if magic.None? {
      return Err(UnexpectedEof);
    }
    if magic.value != Magic {
      return Err(InvalidMagic);
    }
    var length := f.ReadExact(1);
    if length.None? {
      return Err(UnexpectedEof);
    }
    var n := length.value[0] as nat;
    var searchBytes := f.ReadExact(n);
    if searchBytes.None? {
      return Err(UnexpectedEof);
    }
    var search := Decode(searchBytes.value);
    if search.None? {
      return Err(InvalidUtf8);
    }
    var flag := f.ReadExact(1);
    if flag.None? {
      return Err(UnexpectedEof);
    }
    var found := flag.value[0] != 0;
    var payload := f.ReadToEnd();
    var text := Decode(payload);
    if text.None? {
      return Err(InvalidUtf8);
    }
    var data := Rle.RleDecode(text.value);
    if data.None? {
      return Err(CountNotDigit);
    }
    r := Ok(Record(data.value, search.value, found));
  }

  // ---------------------------------------------------------------------------
  // Lemmas

  /** Where each field of a framed file sits. */
  lemma {:induction false} FrameOffsets(q: seq<Byte>, flag: Byte, payload: seq<Byte>)
    ensures var f := Magic + [|q| % 256] + q + [flag] + payload;
      && |f| == 6 + |q| + |payload|
      && f[..4] == Magic
      && f[4] as int == |q| % 256
      && (|q| <= 255 ==> f[4] as int == |q|)
      && f[5..5 + |q|] == q
      && f[5 + |q|] == flag
      && f[6 + |q|..] == payload
  {
    var f := Magic + [|q| % 256] + q + [flag] + payload;
    assert f[..4] == Magic;
    assert f[5..5 + |q|] == q;
    assert f[6 + |q|..] == payload;
  }

  /** The written file follows the offset table, with the flag computed on the original data. */
  lemma {:induction false} LayoutOffsets(data: string, search: string)
    ensures var f, q := Layout(data, search), Encode(search);
      && |f| == 6 + |q| + |Encode(Rle.Encoding(data))|
      && f[..4] == Magic
      && f[4] as int == |q| % 256
      && (|q| <= 255 ==> f[4] as int == |q|)
      && f[5..5 + |q|] == q
      && f[5 + |q|] == (if Contains(data, search) then 1 else 0)
      && f[6 + |q|..] == Encode(Rle.Encoding(data))
  {
    var q, payload := Encode(search), Encode(Rle.Encoding(data));
    var flag := FlagByte(Contains(data, search));
    FrameOffsets(q, flag, payload);
    assert Layout(data, search) == Magic + [|q| % 256] + q + [flag] + payload;
  }

  /** How the sniffer takes apart a file whose length byte matches its search string. */
  lemma {:induction false} ReadFrame(f: seq<Byte>, q: seq<Byte>)
    requires |f| >= 6 + |q| && f[..4] == Magic && f[4] as int == |q| && f[5..5 + |q|] == q
    ensures Decode(q).None? ==> HeaderOf(f) == Err(InvalidUtf8)
    ensures Decode(q).Some? ==> HeaderOf(f) == Ok(Header(Decode(q).value, f[5 + |q|] != 0))
  {
  }

  /** Header round trip: sniffing a written file gives back the search string and the flag. */
  lemma {:induction false} SniffRoundTrip(data: string, search: string)
    requires |Encode(search)| <= 255
    ensures HeaderOf(Layout(data, search)) == Ok(Header(search, Contains(data, search)))
  {
    LayoutOffsets(data, search);
    ReadFrame(Layout(data, search), Encode(search));
    DecodeEncode(search);
  }

  /** Once the header is read, `read_didi` returns what the payload decodes to. */
  lemma {:induction false} RecordFrame(f: seq<Byte>, text: string, data: string)
    requires HeaderOf(f).Ok?
    requires Decode(f[6 + f[4] as int..]) == Some(text) && Rle.Decoding(text) == Some(data)
    ensures RecordOf(f) == Ok(Record(data, HeaderOf(f).value.search, HeaderOf(f).value.found))
  {
  }

  /** Full round trip: reading a written file gives back the data, the search string and the flag. */
  lemma {:induction false} ReadRoundTrip(data: string, search: string)
    requires |Encode(search)| <= 255
    requires Rle.RunsAtMostNine(data)
    ensures RecordOf(Layout(data, search)) == Ok(Record(data, search, Contains(data, search)))
  {
    var f, text := Layout(data, search), Rle.Encoding(data);
    assert HeaderOf(f) == Ok(Header(search, Contains(data, search))) by {
      SniffRoundTrip(data, search);
    }
    assert Decode(f[6 + f[4] as int..]) == Some(text) by {
      PayloadRoundTrip(data, search);
    }
    assert Rle.Decoding(text) == Some(data) by {
      Rle.RoundTrip(data);
    }
    RecordFrame(f, text, data);
  }

  /** The payload of a written file is the UTF-8 of the encoded data. */
  lemma {:induction false} PayloadRoundTrip(data: string, search: string)
    requires |Encode(search)| <= 255
    ensures var f := Layout(data, search); Decode(f[6 + f[4] as int..]) == Some(Rle.Encoding(data))
  {
    var f, n := Layout(data, search), |Encode(search)|;
    assert f[6 + f[4] as int..] == Encode(Rle.Encoding(data)) by {
      LayoutOffsets(data, search);
    }
    DecodeEncode(Rle.Encoding(data));
  }

  /** A file whose first four bytes are not "DIDI" is rejected by both readers. */
  lemma {:induction false} BadMagicRejected(f: seq<Byte>)
    requires |f| >= 4 && f[..4] != Magic
    ensures HeaderOf(f) == Err(InvalidMagic)
    ensures RecordOf(f) == Err(InvalidMagic)
  {
  }

  /**
   * When the sniffer succeeds, the file held the magic, the length byte, the
   * declared string as UTF-8 and the flag byte; any non-zero flag reads as true.
   * Conversely a file with all of these is sniffed successfully.
   */
  lemma {:induction false} HeaderOfOk(f: seq<Byte>)
    ensures HeaderOf(f).Ok? <==>
      && |f| >= 5 && f[..4] == Magic
      && |f| >= 6 + f[4] as int
      && Decode(f[5..5 + f[4] as int]).Some?
    ensures HeaderOf(f).Ok? ==>
      HeaderOf(f).value == Header(Decode(f[5..5 + f[4] as int]).value, f[5 + f[4] as int] != 0)
  {
  }

  /** A file too short for the magic, the length byte, the declared string or the flag is rejected. */
  lemma {:induction false} TruncatedRejected(f: seq<Byte>)
    requires |f| < 5 || |f| < 6 + f[4] as int
    ensures HeaderOf(f).Err? && RecordOf(f).Err?
    ensures |f| < 4 || (f[..4] == Magic && (|f| < 5 || |f| < 5 + f[4] as int)) ==>
      HeaderOf(f) == Err(UnexpectedEof) && RecordOf(f) == Err(UnexpectedEof)
  {
  }

  /** Whenever `read_didi` succeeds, `sniffer` succeeds with the same search string and flag. */
  lemma {:induction false} ReadAgreesWithSniff(f: seq<Byte>)
    requires RecordOf(f).Ok?
    ensures HeaderOf(f) == Ok(Header(RecordOf(f).value.search, RecordOf(f).value.found))
  {
  }

  /** The sniffer looks at no byte past the flag: what follows the header never changes its answer. */
  lemma {:induction false} SniffIgnoresPayload(f: seq<Byte>, payload: seq<Byte>)
    requires |f| >= 5 && |f| == 6 + f[4] as int
    ensures HeaderOf(f + payload) == HeaderOf(f)
  {
    var g := f + payload;
    var n := f[4] as int;
    assert g[..4] == f[..4];
    assert g[4] == f[4];
    assert g[5..5 + n] == f[5..5 + n];
    assert g[5 + n] == f[5 + n];
  }

  /**
   * A search string of more than 255 bytes is never recovered: the length byte
   * keeps only the low eight bits of its length, so both readers either fail or
   * return a shorter string.
   */
  lemma {:induction false} LongSearchNotRecovered(data: string, search: string)
    requires |Encode(search)| > 255
    ensures HeaderOf(Layout(data, search)).Ok? ==> HeaderOf(Layout(data, search)).value.search != search
    ensures RecordOf(Layout(data, search)).Ok? ==> RecordOf(Layout(data, search)).value.search != search
  {
    var f, q := Layout(data, search), Encode(search);
    LayoutOffsets(data, search);
    var h := HeaderOf(f);
    if h.Ok? {
      var n := f[4] as int;
      assert n < |q|;
      assert Decode(f[5..5 + n]).Some?;
      EncodeDecode(f[5..5 + n]);
      assert |Encode(h.value.search)| == n;
    }
    if RecordOf(f).Ok? {
      ReadAgreesWithSniff(f);
    }
  }

  /** The unit test of `write_didi` and `read_didi`. */
  lemma {:induction false} WriteReadExample()
    ensures RecordOf(Layout("aaabbccccxyz", "xyz")) == Ok(Record("aaabbccccxyz", "xyz", true))
  {
    ExampleRunsAtMostNine();
    ExampleContains();
    ReadRoundTrip("aaabbccccxyz", "xyz");
  }

  lemma {:induction false} ExampleRunsAtMostNine()
    ensures Rle.RunsAtMostNine("aaabbccccxyz")
  {
    var runs := [Rle.Run('a', 3), Rle.Run('b', 2), Rle.Run('c', 4)];
    var s0 := "aaabbcccc";
    var s1 := s0 + ['x'];
    var s2 := s1 + ['y'];
    Rle.ExampleRuns();
    Rle.RunsSnoc(s0, 'x');
    Rle.RunsSnoc(s1, 'y');
    Rle.RunsSnoc(s2, 'z');
    assert s2 + ['z'] == "aaabbccccxyz";
    assert Rle.Runs("aaabbccccxyz") == runs + [Rle.Run('x', 1), Rle.Run('y', 1), Rle.Run('z', 1)];
  }

  lemma {:induction false} ExampleContains()
    ensures Contains("aaabbccccxyz", "xyz")
  {
    var d := "aaabbccccxyz";
    assert d[9..12] == "xyz";
    assert OccursAt(d, "xyz", 9);
    ContainsIff(d, "xyz");
  }

  /** The unit test of `sniffer`: "abccc" does not occur in "aaabbcccc". */
  lemma {:induction false} SniffExample()
    ensures HeaderOf(Layout("aaabbcccc", "abccc")) == Ok(Header("abccc", false))
  {
    ExampleMissing();
    SniffRoundTrip("aaabbcccc", "abccc");
  }

  lemma {:induction false} ExampleMissing()
    ensures !Contains("aaabbcccc", "abccc")
  {
    var d, q := "aaabbcccc", "abccc";
    forall i ensures !OccursAt(d, q, i) {
      if 0 <= i && i + |q| <= |d| {
        var k := if i < 2 then 1 else if i == 2 then 2 else 0;
        assert d[i..i + |q|][k] == d[i + k] != q[k];
      }
    }
    ContainsIff(d, q);
  }
}
