/**
 * The run-length codec of the DIDI container (`rle_encode` and `rle_decode`).
 *
 * A string is split into maximal runs of one repeated character; the encoder
 * writes each run as the character followed by its length in decimal, and the
 * decoder reads the encoding two characters at a time as (character, one
 * decimal digit).
 */
module Rle {
  import opened Wrappers

  /** `n` copies of `c`. */
  function Repeat(c: char, n: nat): (r: string)
    ensures |r| == n
    ensures forall i :: 0 <= i < n ==> r[i] == c
  {
    if n == 0 then [] else [c] + Repeat(c, n - 1)
  }

  predicate IsDigit(c: char) { '0' <= c <= '9' }

  /** The value of a decimal digit character, as `to_digit(10)` gives it (only '0' to '9' have one). */
  function DigitValue(c: char): (v: nat)
    requires IsDigit(c)
    ensures v <= 9
  {
    c as int - '0' as int
  }

  /** The digit characters and their values correspond one to one. */
  lemma {:induction false} DigitRoundTrip(c: char)
    requires IsDigit(c)
    ensures Digit(DigitValue(c)) == c
  {
  }

  /** The character of a decimal digit. */
  function Digit(d: nat): (c: char)
    requires d <= 9
    ensures IsDigit(c) && DigitValue(c) == d
  {
    ('0' as int + d) as char
  }

  /** Decimal notation without padding, as Rust's `format!("{}", n)` writes a count. */
  function Decimal(n: nat): (r: string)
    ensures r != [] && forall i :: 0 <= i < |r| ==> IsDigit(r[i])
  {
    if n < 10 then [Digit(n)] else Decimal(n / 10) + [Digit(n % 10)]
  }

  /** The number a string of decimal digits denotes, most significant digit first. */
  function DecimalValue(s: string): nat
    requires forall i :: 0 <= i < |s| ==> IsDigit(s[i])
    decreases |s|
  {
    if s == [] then 0 else DecimalValue(s[..|s| - 1]) * 10 + DigitValue(s[|s| - 1])
  }

  // ---------------------------------------------------------------------------
  // Runs

  /** A run: `len` copies of `ch`. */
  datatype Run = Run(ch: char, len: nat)

  /** The string a list of runs stands for. */
  function Expand(runs: seq<Run>): string
  {
    if runs == [] then [] else Repeat(runs[0].ch, runs[0].len) + Expand(runs[1..])
  }

  /**
   * Every run is non-empty and two neighbouring runs never share their
   * character, checked from the last run back.
   */
  predicate IsMaximal(runs: seq<Run>)
    decreases |runs|
  {
    if runs == [] then true
    else
      var init, last := runs[..|runs| - 1], runs[|runs| - 1];
      last.len >= 1 && IsMaximal(init) && (init == [] || init[|init| - 1].ch != last.ch)
  }

  /** Adds one character at the end: it lengthens the last run or starts a new one. */
  function Extend(runs: seq<Run>, c: char): seq<Run>
  {
    if runs != [] && runs[|runs| - 1].ch == c
    then runs[..|runs| - 1] + [Run(c, runs[|runs| - 1].len + 1)]
    else runs + [Run(c, 1)]
  }

  /** The maximal runs of `s`, built left to right one character at a time. */
  function Runs(s: string): seq<Run>
    decreases |s|
  {
    if s == [] then [] else Extend(Runs(s[..|s| - 1]), s[|s| - 1])
  }

  /** Every maximal run of `s` has at most nine characters. */
  predicate RunsAtMostNine(s: string)
  {
    forall i :: 0 <= i < |Runs(s)| ==> Runs(s)[i].len <= 9
  }

  // ---------------------------------------------------------------------------
  // The encoding and the decoding, as functions of their input

  /** The encoding of a list of runs: each run as its character then its decimal length. */
  function Emit(runs: seq<Run>): string
  {
    if runs == [] then [] else [runs[0].ch] + Decimal(runs[0].len) + Emit(runs[1..])
  }

  /** What `rle_encode` returns for `s`. */
  function Encoding(s: string): string
  {
    Emit(Runs(s))
  }

  /** Puts `p` in front of a decoded text; nothing when decoding failed. */
  function Prefixed(p: string, o: Option<string>): Option<string>
  {
    match o
    case None => None
    case Some(t) => Some(p + t)
  }

  /**
   * What `rle_decode` returns for `e`: each (character, digit) pair expanded,
   * a trailing unpaired character ignored, and None where a count position holds
   * a non-digit (where `to_digit(10).unwrap()` panics).
   */
  function Decoding(e: string): Option<string>
    decreases |e|
  {
    if |e| < 2 then Some([])
    else if !IsDigit(e[1]) then None
    else Prefixed(Repeat(e[0], DigitValue(e[1])), Decoding(e[2..]))
  }

  /** Every count position (odd index) of `e` holds a decimal digit. */
  predicate CountsAreDigits(e: string)
  {
    forall i :: 0 <= i < |e| && i % 2 == 1 ==> IsDigit(e[i])
  }

  /** The sum of the counts of a well-formed encoding. */
  function CountSum(e: string): nat
    requires CountsAreDigits(e)
    decreases |e|
  {
    if |e| < 2 then 0 else DigitValue(e[1]) + CountSum(e[2..])
  }

  // ---------------------------------------------------------------------------
  // The source's loops

  /** `rle_encode`: one pass over the characters, tracking the current run. */
  method RleEncode(data: string) returns (encoded: string)
    ensures encoded == Encoding(data)
  {
    encoded := [];
    if |data| > 0 {
      var prev := data[0];
      var count: nat := 1;
      ghost var done: seq<Run> := [];
      assert data[..1][..0] == [];
      for i := 1 to |data|
        invariant done + [Run(prev, count)] == Runs(data[..i])
        invariant encoded == Emit(done)
      {
        var c := data[i];
        assert data[..i + 1][..i] == data[..i];
        if c == prev {
          count := count + 1;
        } else {
          EmitAppend(done, Run(prev, count));
          encoded := encoded + [prev] + Decimal(count);
          done := done + [Run(prev, count)];
          prev := c;
          count := 1;
        }
      }
      EmitAppend(done, Run(prev, count));
      encoded := encoded + [prev] + Decimal(count);
      assert data[..|data|] == data;
    }
  }

  /** `rle_decode`: takes a character, then its count if one follows, until the input is used up. */
  method RleDecode(data: string) returns (decoded: Option<string>)
    ensures decoded == Decoding(data)
  {
    var out: string := [];
    var rest := data;
    PrefixedNil(Decoding(data));
    while rest != []
      invariant Decoding(data) == Prefixed(out, Decoding(rest))
      decreases |rest|
    {
      var c := rest[0];
      if |rest| >= 2 {
        var count := rest[1];
        if !IsDigit(count) {
          return None;
        }
        PrefixedAppend(out, Repeat(c, DigitValue(count)), Decoding(rest[2..]));
        out := out + Repeat(c, DigitValue(count));
        rest := rest[2..];
      } else {
        rest := [];
      }
    }
    decoded := Some(out);
    assert out + [] == out;
  }

  // ---------------------------------------------------------------------------
  // Lemmas

  lemma {:induction false} PrefixedNil(o: Option<string>)
    ensures Prefixed([], o) == o
  {
    if o.Some? {
      assert [] + o.value == o.value;
    }
  }

  lemma {:induction false} PrefixedAppend(p: string, q: string, o: Option<string>)
    ensures Prefixed(p, Prefixed(q, o)) == Prefixed(p + q, o)
  {
    if o.Some? {
      assert p + (q + o.value) == (p + q) + o.value;
    }
  }

  lemma {:induction false} EmitAppend(runs: seq<Run>, r: Run)
    ensures Emit(runs + [r]) == Emit(runs) + [r.ch] + Decimal(r.len)
  {
    if runs != [] {
      assert (runs + [r])[1..] == runs[1..] + [r];
      EmitAppend(runs[1..], r);
    }
  }

  lemma {:induction false} ExpandAppend(runs: seq<Run>, r: Run)
    ensures Expand(runs + [r]) == Expand(runs) + Repeat(r.ch, r.len)
  {
    if runs != [] {
      assert (runs + [r])[1..] == runs[1..] + [r];
      ExpandAppend(runs[1..], r);
    }
  }

  lemma {:induction false} RepeatSnoc(c: char, n: nat)
    ensures Repeat(c, n + 1) == Repeat(c, n) + [c]
  {
    if n > 0 {
      RepeatSnoc(c, n - 1);
    }
  }

  /** Extending the runs of a string by one character gives runs of the longer string. */
  lemma {:induction false} ExpandExtend(runs: seq<Run>, c: char)
    ensures Expand(Extend(runs, c)) == Expand(runs) + [c]
  {
    if runs != [] && runs[|runs| - 1].ch == c {
      var init, last := runs[..|runs| - 1], runs[|runs| - 1];
      assert runs == init + [last];
      ExpandAppend(init, last);
      ExpandAppend(init, Run(c, last.len + 1));
      RepeatSnoc(c, last.len);
    } else {
      ExpandAppend(runs, Run(c, 1));
    }
  }

  /** Runs(s) is a decomposition of `s` into maximal runs. */
  lemma {:induction false} RunsMaximal(s: string)
    ensures IsMaximal(Runs(s))
    ensures Expand(Runs(s)) == s
    ensures s != [] ==> Runs(s) != [] && Runs(s)[|Runs(s)| - 1].ch == s[|s| - 1]
  {
    if s != [] {
      var init, c := s[..|s| - 1], s[|s| - 1];
      var runs := Runs(init);
      assert Runs(s) == Extend(runs, c);
      RunsMaximal(init);
      MaximalExtend(runs, c);
      ExpandExtend(runs, c);
      assert init + [c] == s;
    }
  }

  /** What maximality says about a list with one more run at its end. */
  lemma {:induction false} MaximalSnoc(init: seq<Run>, r: Run)
    ensures IsMaximal(init + [r]) <==>
      r.len >= 1 && IsMaximal(init) && (init == [] || init[|init| - 1].ch != r.ch)
  {
    var runs := init + [r];
    assert runs[..|runs| - 1] == init && runs[|runs| - 1] == r;
  }

  /** Extending maximal runs by one character keeps them maximal. */
  lemma {:induction false} MaximalExtend(runs: seq<Run>, c: char)
    requires IsMaximal(runs)
    ensures IsMaximal(Extend(runs, c))
    ensures Extend(runs, c) != [] && Extend(runs, c)[|Extend(runs, c)| - 1].ch == c
  {
    if runs != [] && runs[|runs| - 1].ch == c {
      var init, last := runs[..|runs| - 1], runs[|runs| - 1];
      MaximalSnoc(init, Run(c, last.len + 1));
    } else {
      MaximalSnoc(runs, Run(c, 1));
    }
  }

  /** Maximality, stated run by run: every run is non-empty and neighbours differ. */
  lemma {:induction false} MaximalIff(runs: seq<Run>)
    ensures IsMaximal(runs) <==>
      (forall i :: 0 <= i < |runs| ==> runs[i].len >= 1) &&
      (forall i, j :: 0 <= i && j == i + 1 && j < |runs| ==> runs[i].ch != runs[j].ch)
    decreases |runs|
  {
    if runs != [] {
      var init := runs[..|runs| - 1];
      MaximalIff(init);
      assert forall i :: 0 <= i < |init| ==> runs[i] == init[i];
    }
  }

  /** The maximal runs of a string are unique: any maximal decomposition of `s` is Runs(s). */
  lemma {:induction false} RunsUnique(runs: seq<Run>, s: string)
    requires IsMaximal(runs) && Expand(runs) == s
    ensures runs == Runs(s)
    decreases |runs|
  {
    if runs != [] {
      var init, last := runs[..|runs| - 1], runs[|runs| - 1];
      assert runs == init + [last];
      ExpandAppend(init, last);
      RunsUnique(init, Expand(init));
      RunsRepeat(init, last.ch, last.len);
    }
  }

  /** Appending a run of `k` copies of a new character to a string adds exactly that run. */
  lemma {:induction false} RunsRepeat(init: seq<Run>, c: char, k: nat)
    requires Runs(Expand(init)) == init && (init == [] || init[|init| - 1].ch != c) && k >= 1
    ensures Runs(Expand(init) + Repeat(c, k)) == init + [Run(c, k)]
    decreases k
  {
    var e := Expand(init);
    var p := e + Repeat(c, k - 1);
    assert e + Repeat(c, k) == p + [c] by {
      RepeatSnoc(c, k - 1);
    }
    RunsSnoc(p, c);
    if k == 1 {
      assert p == e;
    } else {
      RunsRepeat(init, c, k - 1);
      ExtendLonger(init, c, k - 1);
    }
  }

  lemma {:induction false} RunsSnoc(p: string, c: char)
    ensures Runs(p + [c]) == Extend(Runs(p), c)
  {
    assert (p + [c])[..|p|] == p;
  }

  lemma {:induction false} ExtendLonger(init: seq<Run>, c: char, k: nat)
    ensures Extend(init + [Run(c, k)], c) == init + [Run(c, k + 1)]
  {
    var longer := init + [Run(c, k)];
    assert longer[..|longer| - 1] == init;
  }

  /** Decoding the emitted form of runs of one to nine characters gives back their text. */
  lemma {:induction false} DecodingEmit(runs: seq<Run>)
    requires forall i :: 0 <= i < |runs| ==> 1 <= runs[i].len <= 9
    ensures Decoding(Emit(runs)) == Some(Expand(runs))
  {
    if runs != [] {
      var e := Emit(runs);
      assert e == [runs[0].ch, Digit(runs[0].len)] + Emit(runs[1..]);
      assert e[2..] == Emit(runs[1..]);
      DecodingEmit(runs[1..]);
    }
  }

  /** Round trip: when no run is longer than nine, decoding the encoding of `s` gives `s`. */
  lemma {:induction false} RoundTrip(s: string)
    requires RunsAtMostNine(s)
    ensures Decoding(Encoding(s)) == Some(s)
  {
    RunsMaximal(s);
    MaximalIff(Runs(s));
    DecodingEmit(Runs(s));
  }

  /** Decoding succeeds exactly when every count position holds a digit. */
  lemma {:induction false} DecodingDefined(e: string)
    ensures Decoding(e).Some? <==> CountsAreDigits(e)
    decreases |e|
  {
    if |e| >= 2 {
      DecodingDefined(e[2..]);
      if CountsAreDigits(e) {
        assert IsDigit(e[1]);
        forall i | 0 <= i < |e[2..]| && i % 2 == 1
          ensures IsDigit(e[2..][i])
        {
          assert e[2..][i] == e[i + 2];
        }
      } else if IsDigit(e[1]) {
        var i :| 0 <= i < |e| && i % 2 == 1 && !IsDigit(e[i]);
        assert e[2..][i - 2] == e[i];
      }
    }
  }

  /** The length of a decoding is the sum of the counts. */
  lemma {:induction false} DecodingLength(e: string)
    requires CountsAreDigits(e)
    ensures Decoding(e).Some? && |Decoding(e).value| == CountSum(e)
    decreases |e|
  {
    if |e| >= 2 {
      assert CountsAreDigits(e[2..]) by {
        forall i | 0 <= i < |e[2..]| && i % 2 == 1
          ensures IsDigit(e[2..][i])
        {
          assert e[2..][i] == e[i + 2];
        }
      }
      assert IsDigit(e[1]);
      DecodingLength(e[2..]);
    }
  }

  /** A trailing character with no count after it is dropped. */
  lemma {:induction false} DecodingDropsTrailing(e: string, c: char)
    requires |e| % 2 == 0
    ensures Decoding(e + [c]) == Decoding(e)
    decreases |e|
  {
    if |e| >= 2 {
      assert (e + [c])[2..] == e[2..] + [c];
      DecodingDropsTrailing(e[2..], c);
    }
  }

  /**
   * Decimal(n) spells `n`: its digits denote `n`, it has no leading zero, and
   * it is a single character exactly when `n` is at most nine.
   */
  lemma {:induction false} DecimalMeaning(n: nat)
    ensures DecimalValue(Decimal(n)) == n
    ensures Decimal(n)[0] != '0' || n == 0
    ensures n <= 9 <==> |Decimal(n)| == 1
  {
    if n >= 10 {
      var p := Decimal(n / 10);
      DecimalMeaning(n / 10);
      assert (p + [Digit(n % 10)])[..|p|] == p;
    }
  }

  /** Encoding the empty string gives the empty string. */
  lemma {:induction false} EncodeEmpty()
    ensures Encoding("") == ""
  {
  }

  /** The unit test of `rle_encode`: "aaabbcccc" encodes to "a3b2c4". */
  lemma {:induction false} EncodeExample()
    ensures Encoding("aaabbcccc") == "a3b2c4"
  {
    var runs := [Run('a', 3), Run('b', 2), Run('c', 4)];
    ExampleRuns();
    assert Emit(runs) == "a3b2c4" by {
      assert Emit(runs[3..]) == [];
      assert Emit(runs[2..]) == "c4";
      assert Emit(runs[1..]) == "b2c4";
    }
  }

  lemma {:induction false} ExampleRuns()
    ensures Runs("aaabbcccc") == [Run('a', 3), Run('b', 2), Run('c', 4)]
  {
    var runs := [Run('a', 3), Run('b', 2), Run('c', 4)];
    assert Expand(runs) == "aaabbcccc" by {
      assert Repeat('a', 3) == "aaa" && Repeat('b', 2) == "bb" && Repeat('c', 4) == "cccc";
      assert Expand(runs[2..]) == "cccc";
      assert Expand(runs[1..]) == "bbcccc";
    }
    assert IsMaximal(runs) by {
      MaximalIff(runs);
    }
    RunsUnique(runs, "aaabbcccc");
  }

  /** The unit test of `rle_decode`: "a3b2c4" decodes to "aaabbcccc". */
  lemma {:induction false} DecodeExample()
    ensures Decoding("a3b2c4") == Some("aaabbcccc")
  {
    var e1, e2, e3 := "a3b2c4", "b2c4", "c4";
    assert e1[2..] == e2 && e2[2..] == e3 && e3[2..] == [];
    assert DigitValue('3') == 3 && DigitValue('2') == 2 && DigitValue('4') == 4;
    assert Repeat('a', 3) == "aaa" && Repeat('b', 2) == "bb" && Repeat('c', 4) == "cccc";
    assert Decoding([]) == Some([]);
    assert Decoding(e3) == Prefixed("cccc", Some([]));
    assert "cccc" + [] == "cccc";
    assert Decoding(e2) == Prefixed("bb", Some("cccc"));
    assert "bb" + "cccc" == "bbcccc";
    assert Decoding(e2) == Some("bbcccc");
    assert Decoding(e1) == Prefixed("aaa", Some("bbcccc"));
    assert "aaa" + "bbcccc" == "aaabbcccc";
  }

  /**
   * A run of ten or more characters is written with a multi-digit count, which the
   * decoder reads as a count and the start of the next pair: "aaaaaaaaaa" encodes
   * to "a10", which decodes to "a".
   */
  lemma {:induction false} LongRunNotRecovered()
    ensures Encoding(Repeat('a', 10)) == "a10"
    ensures Decoding(Encoding(Repeat('a', 10))) == Some("a")
  {
    LongRunEncoding();
    var e := "a10";
    assert e[2..] == "0";
    assert Decoding("0") == Some([]);
    assert Repeat('a', 1) == "a";
  }

  lemma {:induction false} LongRunEncoding()
    ensures Encoding(Repeat('a', 10)) == "a10"
  {
    var runs := [Run('a', 10)];
    assert Runs(Repeat('a', 10)) == runs by {
      assert Expand(runs) == Repeat('a', 10) by {
        assert Expand(runs[1..]) == [];
      }
      assert IsMaximal(runs) by {
        MaximalIff(runs);
      }
      RunsUnique(runs, Repeat('a', 10));
    }
    assert Decimal(10) == "10";
    assert Emit(runs[1..]) == [];
  }
}
