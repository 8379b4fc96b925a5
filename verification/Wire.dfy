/** redis/parser/ and redis/protocol/: the bytes of the wire format, as RESP2 of the Redis serialization protocol specification has them. */
module WireFormat {
  import opened Sequences
  import opened Numerals
  import opened Resp

  /** "FULLRESYNC" */
  const RESYNC: Bytes := [70, 85, 76, 76, 82, 69, 83, 89, 78, 67]

  lemma LineFirst(line: Bytes, rest: Bytes)
    requires line != [] && 10 !in line
    ensures Parse(line + [13, 10] + rest) == ParseLine(line, rest)
  {
    ParsesLine(line, rest);
  }

  /** "+text": a status. */
  lemma StatusBytes(text: Bytes, rest: Bytes)
    requires 10 !in text && !(RESYNC <= text)
    ensures Parse([43] + text + [13, 10] + rest) == [Data(Status(text))] + Parse(rest)
  {
    LineFirst([43] + text, rest);
    assert ([43] + text)[1..] == text;
  }

  /** "+FULLRESYNC...": a status and a file, which has no line end. */
  lemma ResyncBytes(text: Bytes, file: Bytes, rest: Bytes)
    requires 10 !in text && RESYNC <= text && 0 < |file| <= 0x7fff_ffff_ffff_ffff
    ensures Parse([43] + text + [13, 10] + ([36] + FormatInt(|file|) + [13, 10] + (file + rest)))
         == [Data(Status(text)), Data(Bulk(file))] + Parse(rest)
  {
    var more := [36] + FormatInt(|file|) + [13, 10] + (file + rest);
    LineFirst([43] + text, more);
    assert ([43] + text)[1..] == text;
    FileBytes(file, rest);
    assert [Data(Status(text))] + ([Data(Bulk(file))] + Parse(rest)) == [Data(Status(text)), Data(Bulk(file))] + Parse(rest);
  }

  lemma FileBytes(file: Bytes, rest: Bytes)
    requires 0 < |file| <= 0x7fff_ffff_ffff_ffff
    ensures ReadFile([36] + FormatInt(|file|) + [13, 10] + (file + rest)) == Some((file, rest))
  {
    var header := [36] + FormatInt(|file|);
    NumeralPlain(|file|);
    LineRead(header, file + rest);
    ParseFormat(|file|);
    var line := header + [13, 10];
    assert line[|line| - 2] == 13 && line[..|line| - 2] == header && header[1..] == FormatInt(|file|);
    assert (file + rest)[..|file|] == file && (file + rest)[|file|..] == rest;
  }

  /** Without a length above 0 there is no file, and nothing more is read. */
  lemma NoFile(text: Bytes, size: Bytes, rest: Bytes)
    requires 10 !in text && RESYNC <= text && 10 !in size && (ParseInt(size).None? || ParseInt(size).value <= 0)
    ensures Parse([43] + text + [13, 10] + ([36] + size + [13, 10] + rest)) == [Data(Status(text)), Closed]
  {
    var header := [36] + size;
    LineFirst([43] + text, header + [13, 10] + rest);
    assert ([43] + text)[1..] == text;
    LineRead(header, rest);
    var line := header + [13, 10];
    assert line[|line| - 2] == 13 && line[..|line| - 2] == header && header[1..] == size;
  }

  /** "-text": an error. */
  lemma ErrorBytes(text: Bytes, rest: Bytes)
    requires 10 !in text
    ensures Parse([45] + text + [13, 10] + rest) == [Data(Error(text))] + Parse(rest)
  {
    LineFirst([45] + text, rest);
    assert ([45] + text)[1..] == text;
  }

  /** ":number": an integer, or a protocol error if it is none. */
  lemma IntegerBytes(text: Bytes, rest: Bytes)
    requires 10 !in text
    ensures Parse([58] + text + [13, 10] + rest) == [if ParseInt(text).Some? then Data(Int(ParseInt(text).value)) else Bad] + Parse(rest)
  {
    LineFirst([58] + text, rest);
    assert ([58] + text)[1..] == text;
  }

  /** "$length" and that many bytes: a string. */
  lemma BulkBytes(text: Bytes, body: Bytes, rest: Bytes)
    requires 10 !in text && ParseInt(text) == Some(|body|)
    ensures Parse([36] + text + [13, 10] + (body + [13, 10] + rest)) == [Data(Bulk(body))] + Parse(rest)
  {
    LineFirst([36] + text, body + [13, 10] + rest);
    assert ([36] + text)[1..] == text;
    BodyIs(body, rest);
  }

  lemma BodyIs(body: Bytes, rest: Bytes)
    ensures Body(body + [13, 10] + rest, |body|) == Some((body, rest))
  {
    var input := body + [13, 10] + rest;
    assert input[..|body| + 2] == body + [13, 10] && input[|body| + 2..] == rest;
    assert (body + [13, 10])[..|body|] == body;
  }

  /** "$-1" is nil; another negative length, or none at all, is a protocol error; and too few bytes are the end. */
  lemma BulkOtherwise(text: Bytes, rest: Bytes)
    requires 10 !in text
    ensures ParseInt(text).None? || ParseInt(text).value < -1 ==> Parse([36] + text + [13, 10] + rest) == [Bad] + Parse(rest)
    ensures ParseInt(text) == Some(-1) ==> Parse([36] + text + [13, 10] + rest) == [Data(NullBulk)] + Parse(rest)
    ensures ParseInt(text).Some? && ParseInt(text).value >= 0 && |rest| < ParseInt(text).value + 2 ==> Parse([36] + text + [13, 10] + rest) == [Closed]
  {
    LineFirst([36] + text, rest);
    assert ([36] + text)[1..] == text;
  }

  /** Strings one after the other, each as above. */
  function Bulks(args: seq<Bytes>): Bytes {
    if args == [] then [] else [36] + FormatInt(|args[0]|) + [13, 10] + args[0] + [13, 10] + Bulks(args[1..])
  }

  function Wrapped(args: seq<Bytes>): (r: seq<Option<Bytes>>)
    ensures |r| == |args| && forall i {:trigger r[i]} :: 0 <= i < |args| ==> r[i] == Some(args[i])
  {
    seq(|args|, i requires 0 <= i < |args| => Some(args[i]))
  }

  lemma {:induction false} BulksAre(args: seq<Bytes>)
    ensures EncodeArgs(Wrapped(args)) == Bulks(args)
    decreases args
  {
    if args != [] {
      assert Wrapped(args)[1..] == Wrapped(args[1..]);
      BulksAre(args[1..]);
    }
  }

  ghost predicate Sized(args: seq<Bytes>) {
    |args| <= 0x7fff_ffff_ffff_ffff && forall a :: a in args ==> |a| <= 0x7fff_ffff_ffff_ffff
  }

  lemma SizedEncodable(args: seq<Bytes>)
    requires Sized(args)
    ensures Encodable(Multi(Wrapped(args))) && Canon(Multi(Wrapped(args))) == Multi(Wrapped(args))
  {
    forall a | a in Wrapped(args) ensures a.Some? && IsInt64(|a.value|) {
    }
    assert CanonArgs(Wrapped(args)) == Wrapped(args);
  }

  /** "*number" and that many strings: an array; both parsers read it. */
  lemma ArrayBytes(args: seq<Bytes>, rest: Bytes)
    requires Sized(args)
    ensures Parse([42] + FormatInt(|args|) + [13, 10] + Bulks(args) + rest) == [Data(Multi(Wrapped(args)))] + Parse(rest)
    ensures ParseV2([42] + FormatInt(|args|) + [13, 10] + Bulks(args) + rest) == Args(Wrapped(args), rest)
  {
    BulksAre(args);
    SizedEncodable(args);
    assert Encode(Multi(Wrapped(args))) == [42] + FormatInt(|args|) + [13, 10] + Bulks(args);
    ReplyBack(Multi(Wrapped(args)), rest);
    CommandBack(Wrapped(args), rest);
  }

  /** A negative number of strings, or none, is a protocol error. */
  lemma ArrayOtherwise(text: Bytes, rest: Bytes)
    requires 10 !in text && (ParseInt(text).None? || ParseInt(text).value < 0)
    ensures Parse([42] + text + [13, 10] + rest) == [Bad] + Parse(rest)
  {
    LineFirst([42] + text, rest);
    assert ([42] + text)[1..] == text;
  }

  /** A string of an array that does not begin with "$" is a protocol error; what was read before it is sent. */
  lemma ArrayBroken(text: Bytes, line: Bytes, rest: Bytes)
    requires 10 !in text && ParseInt(text).Some? && ParseInt(text).value > 0 && 10 !in line && (|line| < 2 || line[0] != 36)
    ensures Parse([42] + text + [13, 10] + (line + [13, 10] + rest)) == [Bad, Data(Multi([]))] + Parse(rest)
  {
    var more := line + [13, 10] + rest;
    LineFirst([42] + text, more);
    assert ([42] + text)[1..] == text;
    LineRead(line, rest);
    var whole := line + [13, 10];
    assert |line| >= 2 ==> whole[0] == line[0];
    assert ReadArgs(ParseInt(text).value, more, []) == Broken([], rest);
  }

  /* ---- Commands typed in a line ---- */

  /** The words, with a space between each two. */
  function Spaced(words: seq<Option<Bytes>>): Bytes
    requires forall i :: 0 <= i < |words| ==> words[i].Some?
  {
    if words == [] then []
    else if |words| == 1 then words[0].value
    else words[0].value + [32] + Spaced(words[1..])
  }

  /** The parts of a line between its spaces. */
  lemma {:induction false} SplitMeans(line: Bytes)
    ensures Spaced(Split(line)) == line && forall i {:trigger Split(line)[i]} :: 0 <= i < |Split(line)| ==> 32 !in Split(line)[i].value
    decreases line
  {
    if line != [] {
      var r, x := Split(line[1..]), line[0];
      SplitMeans(line[1..]);
      assert line == [x] + line[1..];
      if x == 32 {
        SpacedSpace(r);
      } else {
        SpacedByte(r, x);
      }
    }
  }

  lemma SpacedSpace(r: seq<Option<Bytes>>)
    requires r != [] && forall i :: 0 <= i < |r| ==> r[i].Some?
    ensures Spaced([Some([])] + r) == [32] + Spaced(r)
  {
    assert ([Some([])] + r)[1..] == r;
    assert [] + [32] + Spaced(r) == [32] + Spaced(r);
  }

  lemma SpacedByte(r: seq<Option<Bytes>>, x: uint8)
    requires r != [] && forall i :: 0 <= i < |r| ==> r[i].Some?
    ensures Spaced([Some([x] + r[0].value)] + r[1..]) == [x] + Spaced(r)
  {
    var q := [Some([x] + r[0].value)] + r[1..];
    assert q[1..] == r[1..];
    if |r| > 1 {
      var a, b := r[0].value, Spaced(r[1..]);
      Associative([x], a, [32]);
      Associative([x], a + [32], b);
    }
  }

  /** A line with another first byte is a command, its arguments between the spaces; both parsers read it. */
  lemma InlineBytes(line: Bytes, rest: Bytes)
    requires line != [] && 10 !in line && 13 !in line && line[0] != 43 && line[0] != 45 && line[0] != 58 && line[0] != 36 && line[0] != 42
    ensures Parse(line + [13, 10] + rest) == [Data(Multi(Split(line)))] + Parse(rest)
    ensures ParseV2(line + [13, 10] + rest) == Args(Split(line), rest)
  {
    LineFirst(line, rest);
    var input := line + [13, 10] + rest;
    assert input[1..] == line[1..] + [13, 10] + rest;
    ReadLineBack(line[1..], rest);
    assert [line[0]] + line[1..] == line;
  }

  /** Empty lines, and those without a carriage return, are passed over; without a line feed there is nothing to read. */
  lemma OtherLines(line: Bytes, rest: Bytes)
    requires 10 !in line
    ensures Parse([13, 10] + rest) == Parse(rest)
    ensures line == [] || line[|line| - 1] != 13 ==> Parse(line + [10] + rest) == Parse(rest)
    ensures Parse(line) == [Closed]
  {
    SplitAt([13], rest);
    assert [13] + [10] + rest == [13, 10] + rest;
    SplitAt(line, rest);
    NoLine(line);
  }

  lemma {:induction false} NoLine(line: Bytes)
    requires 10 !in line
    ensures SplitLine(line) == None
    decreases line
  {
    if line != [] {
      NoLine(line[1..]);
    }
  }

  /* ---- What is written ---- */

  /** The bytes of each kind of reply. */
  lemma WrittenBytes(text: Bytes, n: int, args: seq<Bytes>)
    ensures Encode(Status(text)) == [43] + text + [13, 10]
    ensures Encode(Error(text)) == [45] + text + [13, 10]
    ensures Encode(Int(n)) == [58] + FormatInt(n) + [13, 10]
    ensures Encode(Bulk(text)) == [36] + FormatInt(|text|) + [13, 10] + text + [13, 10]
    ensures Encode(Multi(Wrapped(args))) == [42] + FormatInt(|args|) + [13, 10] + Bulks(args)
  {
    BulksAre(args);
  }

  /** "$-1" for nil. */
  lemma NilBytes()
    ensures Encode(NullBulk) == EncodeArg(None) == [36, 45, 49, 13, 10]
  {
    assert FormatInt(-1) == [45, 49];
  }
}
