/** redis/protocol/reply.go and redis/parser: the wire format, its stream parser and its command parser. */
module Resp {
  import opened Sequences
  import opened Numerals

  const CR: uint8 := 13
  const LF: uint8 := 10
  const SPACE: uint8 := 32
  const STATUS: uint8 := 43
  const ERROR: uint8 := 45
  const COLON: uint8 := 58
  const DOLLAR: uint8 := 36
  const STAR: uint8 := 42
  const CRLF: Bytes := [13, 10]

  /** None is an argument that is nil. */
  datatype Reply =
    | Status(text: Bytes)
    | Error(text: Bytes)
    | Int(code: int)
    | Bulk(arg: Bytes)
    | NullBulk
    | Multi(args: seq<Option<Bytes>>)

  /* ---- Encoding ---- */

  function Header(mark: uint8, n: int): Bytes {
    [mark] + FormatInt(n) + CRLF
  }

  function EncodeArg(arg: Option<Bytes>): Bytes {
    match arg
    case None => Header(DOLLAR, -1)
    case Some(a) => Header(DOLLAR, |a|) + a + CRLF
  }

  function EncodeArgs(args: seq<Option<Bytes>>): Bytes {
    if args == [] then [] else EncodeArg(args[0]) + EncodeArgs(args[1..])
  }

  function Encode(r: Reply): Bytes {
    match r
    case Status(text) => [STATUS] + text + CRLF
    case Error(text) => [ERROR] + text + CRLF
    case Int(code) => Header(COLON, code)
    case Bulk(arg) => EncodeArg(Some(arg))
    case NullBulk => EncodeArg(None)
    case Multi(args) => Header(STAR, |args|) + EncodeArgs(args)
  }

  function EncodeAll(rs: seq<Reply>): Bytes {
    if rs == [] then [] else Encode(rs[0]) + EncodeAll(rs[1..])
  }

  /* ---- The stream parser ---- */

  /** A reply, a protocol error, or the error of the reader, after which the channel is closed. */
  datatype Payload = Data(reply: Reply) | Bad | Closed

  /** ReadBytes: up to the first line feed and with it. */
  function SplitLine(input: Bytes): (r: Option<(Bytes, Bytes)>)
    ensures r.Some? ==> r.value.0 + r.value.1 == input && |r.value.0| > 0
  {
    if input == [] then None
    else if input[0] == LF then Some(([LF], input[1..]))
    else match SplitLine(input[1..])
      case None => None
      case Some((line, rest)) => Some(([input[0]] + line, rest))
  }

  /** ReadFull of `n` bytes. */
  function Take(input: Bytes, n: nat): Option<(Bytes, Bytes)> {
    if n <= |input| then Some((input[..n], input[n..])) else None
  }

  /** A body of `n` bytes, and two more that are dropped. */
  function Body(input: Bytes, n: nat): Option<(Bytes, Bytes)> {
    match Take(input, n + 2)
    case None => None
    case Some((body, rest)) => Some((body[..n], rest))
  }

  /** What reading the arguments of an array comes to: all of them, those before a malformed one, or the end of the input. */
  datatype ArgsRead = Whole(args: seq<Option<Bytes>>, rest: Bytes) | Broken(args: seq<Option<Bytes>>, rest: Bytes) | Short

  function ReadArgs(n: nat, input: Bytes, args: seq<Option<Bytes>>): (r: ArgsRead)
    ensures !r.Short? ==> |r.rest| <= |input|
    decreases n
  {
    if n == 0 then Whole(args, input)
    else match SplitLine(input)
      case None => Short
      case Some((line, rest)) =>
        if |line| < 4 || line[|line| - 2] != CR || line[0] != DOLLAR then Broken(args, rest)
        else match ParseInt(line[1..|line| - 2])
          case None => Broken(args, rest)
          case Some(len) =>
            if len < -1 then Broken(args, rest)
            else if len == -1 then ReadArgs(n - 1, rest, args + [Some([])])
            else match Body(rest, len)
              case None => Short
              case Some((body, after)) => ReadArgs(n - 1, after, args + [Some(body)])
  }

  function Split(line: Bytes): (r: seq<Option<Bytes>>)
    ensures r != [] && forall i :: 0 <= i < |r| ==> r[i].Some?
  {
    if line == [] then [Some([])]
    else
      var r := Split(line[1..]);
      if line[0] == SPACE then [Some([])] + r else [Some([line[0]] + r[0].value)] + r[1..]
  }

  const FULLRESYNC: Bytes := [70, 85, 76, 76, 82, 69, 83, 89, 78, 67]

  /** The file that follows a FULLRESYNC, without a line end behind it. */
  function ReadFile(input: Bytes): (r: Option<(Bytes, Bytes)>)
    ensures r.Some? ==> |r.value.1| <= |input|
  {
    match SplitLine(input)
    case None => None
    case Some((line, rest)) =>
      var header := if |line| >= 2 && line[|line| - 2] == CR then line[..|line| - 2] else line;
      if header == [] then None
      else match ParseInt(header[1..])
        case None => None
        case Some(n) => if n <= 0 then None else Take(rest, n)
  }

  function Parse(input: Bytes): (out: seq<Payload>)
    decreases |input|, 0
  {
    match SplitLine(input)
    case None => [Closed]
    case Some((line, rest)) =>
      if |line| <= 2 || line[|line| - 2] != CR then Parse(rest) else ParseLine(line[..|line| - 2], rest)
  }

  /** One turn of the loop, on a line without its end. */
  function ParseLine(line: Bytes, rest: Bytes): (out: seq<Payload>)
    requires line != []
    decreases |rest|, 1
  {
    var mark, text := line[0], line[1..];
    if mark == STATUS then
      [Data(Status(text))] +
      (if !(FULLRESYNC <= text) then Parse(rest)
       else match ReadFile(rest)
         case None => [Closed]
         case Some((file, after)) => [Data(Bulk(file))] + Parse(after))
    else if mark == ERROR then [Data(Error(text))] + Parse(rest)
    else if mark == COLON then
      (match ParseInt(text)
       case None => [Bad] + Parse(rest)
       case Some(n) => [Data(Int(n))] + Parse(rest))
    else if mark == DOLLAR then
      (match ParseInt(text)
       case None => [Bad] + Parse(rest)
       case Some(n) =>
         if n < -1 then [Bad] + Parse(rest)
         else if n == -1 then [Data(NullBulk)] + Parse(rest)
         else match Body(rest, n)
           case None => [Closed]
           case Some((body, after)) => [Data(Bulk(body))] + Parse(after))
    else if mark == STAR then
      (match ParseInt(text)
       case None => [Bad] + Parse(rest)
       case Some(n) =>
         if n < 0 then [Bad] + Parse(rest)
         else match ReadArgs(n, rest, [])
           case Short => [Closed]
           case Broken(args, after) => [Bad, Data(Multi(args))] + Parse(after)
           case Whole(args, after) => [Data(Multi(args))] + Parse(after))
    else [Data(Multi(Split(line)))] + Parse(rest)
  }

  /* ---- Lines ---- */

  lemma {:induction false} SplitAt(t: Bytes, rest: Bytes)
    requires LF !in t
    ensures SplitLine(t + [LF] + rest) == Some((t + [LF], rest))
  {
    var input := t + [LF] + rest;
    if t == [] {
      assert input[1..] == rest;
    } else {
      assert input[1..] == t[1..] + [LF] + rest;
      SplitAt(t[1..], rest);
      assert [t[0]] + (t[1..] + [LF]) == t + [LF];
    }
  }

  /** A line that ends as it should is read as one. */
  lemma LineRead(t: Bytes, rest: Bytes)
    requires LF !in t
    ensures SplitLine(t + CRLF + rest) == Some((t + CRLF, rest))
  {
    SplitAt(t + [CR], rest);
    assert t + CRLF + rest == t + [CR] + [LF] + rest && t + [CR] + [LF] == t + CRLF;
  }

  lemma NumeralPlain(n: int)
    ensures LF !in FormatInt(n) && CR !in FormatInt(n) && |FormatInt(n)| > 0
  {
  }

  lemma HeaderRead(mark: uint8, n: int, rest: Bytes)
    requires mark != LF
    ensures SplitLine(Header(mark, n) + rest) == Some((Header(mark, n), rest))
  {
    NumeralPlain(n);
    LineRead([mark] + FormatInt(n), rest);
  }

  /** A line is turned over to ParseLine. */
  lemma ParsesLine(line: Bytes, rest: Bytes)
    requires LF !in line && line != []
    ensures Parse(line + CRLF + rest) == ParseLine(line, rest)
  {
    LineRead(line, rest);
    assert (line + CRLF)[..|line|] == line && (line + CRLF)[|line|] == CR;
  }

  /* ---- Reading back what was written ---- */

  /** What the parser makes of a reply: an argument that is nil comes back empty. */
  function Canon(r: Reply): Reply {
    if r.Multi? then Multi(CanonArgs(r.args)) else r
  }

  function CanonArgs(args: seq<Option<Bytes>>): (c: seq<Option<Bytes>>)
    ensures |c| == |args| && forall i :: 0 <= i < |args| ==> c[i] == Some(if args[i].Some? then args[i].value else [])
  {
    if args == [] then [] else [CanonArg(args[0])] + CanonArgs(args[1..])
  }

  predicate SizeOk(n: nat) {
    IsInt64(n)
  }

  /** Text in one line, numbers and sizes of 64 bits; and no status that announces a file. */
  predicate Encodable(r: Reply) {
    match r
    case Status(text) => LF !in text && !(FULLRESYNC <= text)
    case Error(text) => LF !in text
    case Int(code) => IsInt64(code)
    case Bulk(arg) => SizeOk(|arg|)
    case NullBulk => true
    case Multi(args) => SizeOk(|args|) && forall a :: a in args && a.Some? ==> SizeOk(|a.value|)
  }

  lemma TextBack(mark: uint8, text: Bytes, rest: Bytes)
    requires mark != LF && LF !in text
    ensures Parse([mark] + text + CRLF + rest) == ParseLine([mark] + text, rest)
  {
    ParsesLine([mark] + text, rest);
  }

  lemma HeaderBack(mark: uint8, n: int, rest: Bytes)
    requires mark != LF && IsInt64(n)
    ensures Parse(Header(mark, n) + rest) == ParseLine([mark] + FormatInt(n), rest)
    ensures ParseInt(([mark] + FormatInt(n))[1..]) == Some(n)
  {
    NumeralPlain(n);
    ParsesLine([mark] + FormatInt(n), rest);
    ParseFormat(n);
    assert ([mark] + FormatInt(n))[1..] == FormatInt(n);
  }

  lemma BodyBack(a: Bytes, rest: Bytes)
    ensures Body(a + CRLF + rest, |a|) == Some((a, rest))
  {
    var input := a + CRLF + rest;
    assert input[..|a| + 2] == a + CRLF && input[|a| + 2..] == rest;
    assert (a + CRLF)[..|a|] == a;
  }

  lemma ArgHeader(n: int, rest: Bytes)
    requires IsInt64(n)
    ensures var line := Header(DOLLAR, n);
            && SplitLine(line + rest) == Some((line, rest)) && |line| >= 4 && line[|line| - 2] == CR && line[0] == DOLLAR
            && ParseInt(line[1..|line| - 2]) == Some(n)
  {
    HeaderRead(DOLLAR, n, rest);
    NumeralPlain(n);
    ParseFormat(n);
    assert Header(DOLLAR, n)[1..|Header(DOLLAR, n)| - 2] == FormatInt(n);
  }

  lemma Regroup(a: Bytes, b: Bytes, c: Bytes, d: Bytes)
    ensures a + b + c + d == a + (b + c + d) && (a + b) + c == a + (b + c)
  {
  }

  function CanonArg(arg: Option<Bytes>): Option<Bytes> {
    Some(if arg.Some? then arg.value else [])
  }

  lemma ArgBack(arg: Option<Bytes>, n: nat, more: Bytes, done: seq<Option<Bytes>>)
    requires n > 0 && (arg.Some? ==> SizeOk(|arg.value|))
    ensures ReadArgs(n, EncodeArg(arg) + more, done) == ReadArgs(n - 1, more, done + [CanonArg(arg)])
  {
    match arg
    case None => ArgHeader(-1, more);
    case Some(body) =>
      Regroup(Header(DOLLAR, |body|), body, CRLF, more);
      ArgHeader(|body|, body + CRLF + more);
      BodyBack(body, more);
  }

  /** The arguments of an encoded array are read back, one by one. */
  lemma {:induction false} ArgsBack(args: seq<Option<Bytes>>, rest: Bytes, done: seq<Option<Bytes>>)
    requires forall a :: a in args && a.Some? ==> SizeOk(|a.value|)
    ensures ReadArgs(|args|, EncodeArgs(args) + rest, done) == Whole(done + CanonArgs(args), rest)
    decreases args
  {
    if args == [] {
      assert EncodeArgs(args) + rest == rest && done + CanonArgs(args) == done;
    } else {
      assert args[0] in args;
      Regroup(EncodeArg(args[0]), EncodeArgs(args[1..]), rest, []);
      ArgBack(args[0], |args|, EncodeArgs(args[1..]) + rest, done);
      ArgsBack(args[1..], rest, done + [CanonArg(args[0])]);
      assert done + [CanonArg(args[0])] + CanonArgs(args[1..]) == done + CanonArgs(args);
    }
  }

  lemma BulkBack(arg: Bytes, rest: Bytes)
    requires SizeOk(|arg|)
    ensures Parse(Encode(Bulk(arg)) + rest) == [Data(Bulk(arg))] + Parse(rest)
  {
    Regroup(Header(DOLLAR, |arg|), arg, CRLF, rest);
    HeaderBack(DOLLAR, |arg|, arg + CRLF + rest);
    BodyBack(arg, rest);
  }

  lemma ArrayLine(line: Bytes, n: int, rest: Bytes, args: seq<Option<Bytes>>, after: Bytes)
    requires line != [] && line[0] == STAR && ParseInt(line[1..]) == Some(n) && n >= 0 && ReadArgs(n, rest, []) == Whole(args, after)
    ensures ParseLine(line, rest) == [Data(Multi(args))] + Parse(after)
  {
  }

  lemma MultiBack(args: seq<Option<Bytes>>, rest: Bytes)
    requires Encodable(Multi(args))
    ensures Parse(Encode(Multi(args)) + rest) == [Data(Multi(CanonArgs(args)))] + Parse(rest)
  {
    var more := EncodeArgs(args) + rest;
    Regroup(Header(STAR, |args|), EncodeArgs(args), rest, []);
    HeaderBack(STAR, |args|, more);
    ArgsBack(args, rest, []);
    assert [] + CanonArgs(args) == CanonArgs(args);
    ArrayLine([STAR] + FormatInt(|args|), |args|, more, CanonArgs(args), rest);
  }

  lemma StatusBack(text: Bytes, rest: Bytes)
    requires Encodable(Status(text))
    ensures Parse(Encode(Status(text)) + rest) == [Data(Status(text))] + Parse(rest)
  {
    TextBack(STATUS, text, rest);
    assert ([STATUS] + text)[1..] == text;
  }

  /** A reply is read back, and the parser goes on behind it. */
  lemma ReplyBack(r: Reply, rest: Bytes)
    requires Encodable(r)
    ensures Parse(Encode(r) + rest) == [Data(Canon(r))] + Parse(rest)
  {
    match r
    case Status(text) => StatusBack(text, rest);
    case Error(text) =>
      TextBack(ERROR, text, rest);
      assert ([ERROR] + text)[1..] == text;
    case Int(code) => HeaderBack(COLON, code, rest);
    case NullBulk => HeaderBack(DOLLAR, -1, rest);
    case Bulk(arg) => BulkBack(arg, rest);
    case Multi(args) => MultiBack(args, rest);
  }

  function Datas(rs: seq<Reply>): seq<Payload> {
    if rs == [] then [] else [Data(Canon(rs[0]))] + Datas(rs[1..])
  }

  /** A stream of encoded replies is parsed into those replies, in order, and then the input ends. */
  lemma {:induction false} StreamBack(rs: seq<Reply>)
    requires forall r :: r in rs ==> Encodable(r)
    ensures Parse(EncodeAll(rs)) == Datas(rs) + [Closed]
    decreases rs
  {
    if rs != [] {
      assert rs[0] in rs;
      ReplyBack(rs[0], EncodeAll(rs[1..]));
      StreamBack(rs[1..]);
    }
  }

  /* ---- Text of more than one line does not come back ---- */

  lemma {:induction false} OneLine(input: Bytes)
    ensures SplitLine(input).Some? ==> LF !in SplitLine(input).value.0[..|SplitLine(input).value.0| - 1]
    decreases input
  {
    if input != [] && input[0] != LF {
      OneLine(input[1..]);
    }
  }

  predicate InOneLine(p: Payload) {
    p.Data? && (p.reply.Status? || p.reply.Error?) ==> LF !in p.reply.text
  }

  ghost predicate AllInOneLine(out: seq<Payload>) {
    forall p :: p in out ==> InOneLine(p)
  }

  lemma {:induction false} ParsedInOneLine(input: Bytes)
    ensures AllInOneLine(Parse(input))
    decreases |input|, 0
  {
    match SplitLine(input)
    case None =>
    case Some((line, rest)) =>
      OneLine(input);
      if |line| <= 2 || line[|line| - 2] != CR {
        ParsedInOneLine(rest);
      } else {
        NoneShorter(line, |line| - 2, |line| - 1);
        LineInOneLine(line[..|line| - 2], rest);
      }
  }

  lemma NoneShorter(line: Bytes, a: nat, b: nat)
    requires a <= b <= |line| && LF !in line[..b]
    ensures LF !in line[..a]
  {
    forall i | 0 <= i < a ensures line[..a][i] != LF {
      assert line[..b][i] == line[..a][i];
    }
  }

  lemma {:induction false} LineInOneLine(line: Bytes, rest: Bytes)
    requires line != [] && LF !in line
    ensures AllInOneLine(ParseLine(line, rest))
    decreases |rest|, 1
  {
    ParsedInOneLine(rest);
    if line[0] == STATUS {
      match ReadFile(rest)
      case None =>
      case Some((_, after)) => ParsedInOneLine(after);
    } else if line[0] == DOLLAR && ParseInt(line[1..]).Some? && ParseInt(line[1..]).value >= 0 {
      match Body(rest, ParseInt(line[1..]).value)
      case None =>
      case Some((_, after)) => ParsedInOneLine(after);
    } else if line[0] == STAR && ParseInt(line[1..]).Some? && ParseInt(line[1..]).value >= 0 {
      match ReadArgs(ParseInt(line[1..]).value, rest, [])
      case Short =>
      case Broken(_, after) => ParsedInOneLine(after);
      case Whole(_, after) => ParsedInOneLine(after);
    }
  }

  /** An error text is read back if and only if it is in one line. */
  lemma ErrorBack(text: Bytes, rest: Bytes)
    ensures Parse(Encode(Error(text)) + rest) == [Data(Error(text))] + Parse(rest) <==> LF !in text
  {
    if LF !in text {
      ReplyBack(Error(text), rest);
    } else {
      var out := Parse(Encode(Error(text)) + rest);
      ParsedInOneLine(Encode(Error(text)) + rest);
      assert Data(Error(text)) !in out;
      assert ([Data(Error(text))] + Parse(rest))[0] == Data(Error(text));
    }
  }

  /* ---- The command parser ---- */

  datatype Command = Args(args: seq<Option<Bytes>>, rest: Bytes) | NoArgs(rest: Bytes) | Failure

  /** Up to a carriage return, which a line feed must follow. */
  function ReadLine(input: Bytes): (r: Option<(Bytes, Bytes)>) {
    if input == [] then None
    else if input[0] == CR then (if |input| >= 2 && input[1] == LF then Some(([], input[2..])) else None)
    else match ReadLine(input[1..])
      case None => None
      case Some((line, rest)) => Some(([input[0]] + line, rest))
  }

  function ReadInteger(input: Bytes): (r: Option<(int, Bytes)>) {
    match ReadLine(input)
    case None => None
    case Some((line, rest)) =>
      match ParseInt(line)
      case None => None
      case Some(n) => Some((n, rest))
  }

  function CommandArgs(n: nat, input: Bytes, args: seq<Option<Bytes>>): (r: Command)
    decreases n
  {
    if n == 0 then Args(args, input)
    else if input == [] || input[0] != DOLLAR then Failure
    else match ReadInteger(input[1..])
      case None => Failure
      case Some((len, rest)) =>
        if len < 0 then CommandArgs(n - 1, rest, args + [None])
        else match Body(rest, len)
          case None => Failure
          case Some((body, after)) => CommandArgs(n - 1, after, args + [Some(body)])
  }

  function ParseV2(input: Bytes): (r: Command) {
    if input == [] then Failure
    else if input[0] != STAR then
      (match ReadLine(input[1..])
       case None => Failure
       case Some((line, rest)) => Args(Split([input[0]] + line), rest))
    else match ReadInteger(input[1..])
      case None => Failure
      case Some((n, rest)) => if n < 0 then NoArgs(rest) else CommandArgs(n, rest, [])
  }

  lemma {:induction false} ReadLineBack(t: Bytes, rest: Bytes)
    requires CR !in t
    ensures ReadLine(t + CRLF + rest) == Some((t, rest))
  {
    var input := t + CRLF + rest;
    if t == [] {
      assert input[0] == CR && input[1] == LF && input[2..] == rest;
    } else {
      assert input[1..] == t[1..] + CRLF + rest;
      ReadLineBack(t[1..], rest);
      assert [t[0]] + t[1..] == t;
    }
  }

  lemma IntegerBack(mark: uint8, n: int, rest: Bytes)
    requires IsInt64(n)
    ensures (Header(mark, n) + rest)[0] == mark && ReadInteger((Header(mark, n) + rest)[1..]) == Some((n, rest))
  {
    NumeralPlain(n);
    ParseFormat(n);
    ReadLineBack(FormatInt(n), rest);
    assert (Header(mark, n) + rest)[1..] == FormatInt(n) + CRLF + rest;
  }

  lemma CommandArgBack(arg: Option<Bytes>, n: nat, more: Bytes, done: seq<Option<Bytes>>)
    requires n > 0 && (arg.Some? ==> SizeOk(|arg.value|))
    ensures CommandArgs(n, EncodeArg(arg) + more, done) == CommandArgs(n - 1, more, done + [arg])
  {
    match arg
    case None => IntegerBack(DOLLAR, -1, more);
    case Some(body) =>
      Regroup(Header(DOLLAR, |body|), body, CRLF, more);
      IntegerBack(DOLLAR, |body|, body + CRLF + more);
      BodyBack(body, more);
  }

  lemma {:induction false} CommandArgsBack(args: seq<Option<Bytes>>, rest: Bytes, done: seq<Option<Bytes>>)
    requires forall a :: a in args && a.Some? ==> SizeOk(|a.value|)
    ensures CommandArgs(|args|, EncodeArgs(args) + rest, done) == Args(done + args, rest)
    decreases args
  {
    if args == [] {
      assert EncodeArgs(args) + rest == rest && done + args == done;
    } else {
      assert args[0] in args;
      var more := EncodeArgs(args[1..]) + rest;
      Regroup(EncodeArg(args[0]), EncodeArgs(args[1..]), rest, []);
      assert EncodeArgs(args) + rest == EncodeArg(args[0]) + more;
      CommandArgBack(args[0], |args|, more, done);
      CommandArgsBack(args[1..], rest, done + [args[0]]);
      MoveOne(done, args);
    }
  }

  lemma MoveOne(done: seq<Option<Bytes>>, args: seq<Option<Bytes>>)
    requires args != []
    ensures done + [args[0]] + args[1..] == done + args
  {
  }

  /** An encoded command is read back exactly, and nothing behind it is touched. */
  lemma CommandBack(args: seq<Option<Bytes>>, rest: Bytes)
    requires Encodable(Multi(args))
    ensures ParseV2(Encode(Multi(args)) + rest) == Args(args, rest)
  {
    Regroup(Header(STAR, |args|), EncodeArgs(args), rest, []);
    IntegerBack(STAR, |args|, EncodeArgs(args) + rest);
    CommandArgsBack(args, rest, []);
    assert [] + args == args;
  }

  /** The two parsers agree on an encoded command if and only if no argument is nil. */
  lemma ParsersAgree(args: seq<Option<Bytes>>, rest: Bytes)
    requires Encodable(Multi(args))
    ensures ParseV2(Encode(Multi(args)) + rest) == Args(args, rest)
    ensures Parse(Encode(Multi(args)) + rest) == [Data(Multi(CanonArgs(args)))] + Parse(rest)
    ensures CanonArgs(args) == args <==> None !in args
  {
    CommandBack(args, rest);
    MultiBack(args, rest);
    if None !in args {
      forall i | 0 <= i < |args| ensures CanonArgs(args)[i] == args[i] {
        assert args[i] in args;
      }
    }
  }

  /* ---- The same, as it is done ---- */

  /** ToBytes of an array; the size computed beforehand is exact. */
  method MultiToBytes(args: seq<Option<Bytes>>) returns (buf: Bytes, bufLen: nat)
    ensures buf == Encode(Multi(args)) && bufLen == |buf|
  {
    bufLen := BufLen(args);
    buf := [STAR];
    buf := buf + FormatInt(|args|);
    buf := buf + CRLF;
    var i := 0;
    while i < |args|
      invariant 0 <= i <= |args| && buf + EncodeArgs(args[i..]) == Encode(Multi(args))
    {
      ghost var before := buf;
      assert args[i..][1..] == args[i + 1..];
      if args[i].None? {
        buf := buf + Header(DOLLAR, -1);
      } else {
        buf := buf + Header(DOLLAR, |args[i].value|);
        buf := buf + args[i].value;
        buf := buf + CRLF;
        Regroup(before, Header(DOLLAR, |args[i].value|), args[i].value, CRLF);
      }
      assert buf == before + EncodeArg(args[i]);
      Regroup(before, EncodeArg(args[i]), EncodeArgs(args[i + 1..]), []);
      i := i + 1;
    }
  }

  function ArgLen(arg: Option<Bytes>): nat {
    if arg.None? then 3 + 2 else 1 + |FormatInt(|arg.value|)| + 2 + |arg.value| + 2
  }

  lemma ArgLenIs(arg: Option<Bytes>)
    ensures ArgLen(arg) == |EncodeArg(arg)|
  {
  }

  method BufLen(args: seq<Option<Bytes>>) returns (bufLen: nat)
    ensures bufLen == |Encode(Multi(args))|
  {
    bufLen := 1 + |FormatInt(|args|)| + 2;
    var i := 0;
    while i < |args|
      invariant 0 <= i <= |args| && bufLen + |EncodeArgs(args[i..])| == |Encode(Multi(args))|
    {
      assert args[i..][1..] == args[i + 1..];
      ArgLenIs(args[i]);
      bufLen := bufLen + ArgLen(args[i]);
      i := i + 1;
    }
  }

  /** The loop of parseArray. */
  method ParseArray(n: nat, input: Bytes) returns (r: ArgsRead)
    ensures r == ReadArgs(n, input, [])
  {
    var rest, args, i := input, [], 0;
    while i < n
      invariant 0 <= i <= n && ReadArgs(n - i, rest, args) == ReadArgs(n, input, [])
    {
      var split := SplitLine(rest);
      if split.None? {
        return Short;
      }
      var (line, after) := split.value;
      if |line| < 4 || line[|line| - 2] != CR || line[0] != DOLLAR {
        return Broken(args, after);
      }
      var len := ParseInt(line[1..|line| - 2]);
      if len.None? || len.value < -1 {
        return Broken(args, after);
      }
      if len.value == -1 {
        args, rest := args + [Some([])], after;
      } else {
        var body := Body(after, len.value);
        if body.None? {
          return Short;
        }
        args, rest := args + [Some(body.value.0)], body.value.1;
      }
      i := i + 1;
    }
    r := Whole(args, rest);
  }

  ghost function Prefixed(line: Bytes, r: Option<(Bytes, Bytes)>): Option<(Bytes, Bytes)> {
    match r
    case None => None
    case Some((more, rest)) => Some((line + more, rest))
  }

  lemma NoPrefix(r: Option<(Bytes, Bytes)>)
    ensures Prefixed([], r) == r
  {
    if r.Some? {
      assert [] + r.value.0 == r.value.0;
    }
  }

  lemma MorePrefix(line: Bytes, b: uint8, r: Option<(Bytes, Bytes)>)
    ensures Prefixed(line, Prefixed([b], r)) == Prefixed(line + [b], r)
  {
    if r.Some? {
      assert line + ([b] + r.value.0) == line + [b] + r.value.0;
    }
  }

  /** readLine, byte by byte. */
  method ReadLineBytes(input: Bytes) returns (r: Option<(Bytes, Bytes)>)
    ensures r == ReadLine(input)
  {
    var line: Bytes := [];
    var i := 0;
    assert input[0..] == input;
    NoPrefix(ReadLine(input));
    while i < |input|
      invariant 0 <= i <= |input|
      invariant ReadLine(input) == Prefixed(line, ReadLine(input[i..]))
    {
      assert input[i..][0] == input[i] && input[i..][1..] == input[i + 1..];
      if input[i] == CR {
        assert i + 1 < |input| ==> input[i..][1] == input[i + 1] && input[i..][2..] == input[i + 2..];
        assert line + [] == line;
        if i + 1 < |input| && input[i + 1] == LF {
          return Some((line, input[i + 2..]));
        }
        return None;
      }
      MorePrefix(line, input[i], ReadLine(input[i + 1..]));
      line := line + [input[i]];
      i := i + 1;
    }
    return None;
  }

  /** ParseV2, past the first byte of an array. */
  method ParseCommandArgs(n: nat, input: Bytes) returns (r: Command)
    ensures r == CommandArgs(n, input, [])
  {
    var rest, args, i := input, [], 0;
    while i < n
      invariant 0 <= i <= n && CommandArgs(n - i, rest, args) == CommandArgs(n, input, [])
    {
      if rest == [] || rest[0] != DOLLAR {
        return Failure;
      }
      var len := ReadInteger(rest[1..]);
      if len.None? {
        return Failure;
      }
      if len.value.0 < 0 {
        args, rest := args + [None], len.value.1;
      } else {
        var body := Body(len.value.1, len.value.0);
        if body.None? {
          return Failure;
        }
        args, rest := args + [Some(body.value.0)], body.value.1;
      }
      i := i + 1;
    }
    r := Args(args, rest);
  }

  method ParseCommand(input: Bytes) returns (r: Command)
    ensures r == ParseV2(input)
  {
    if input == [] {
      return Failure;
    }
    var line := ReadLineBytes(input[1..]);
    if line.None? {
      return Failure;
    }
    if input[0] != STAR {
      return Args(Split([input[0]] + line.value.0), line.value.1);
    }
    var n := ParseInt(line.value.0);
    if n.None? {
      return Failure;
    }
    if n.value < 0 {
      return NoArgs(line.value.1);
    }
    r := ParseCommandArgs(n.value, line.value.1);
  }

  ghost function Then(next: Option<Bytes>): seq<Payload> {
    match next
    case None => []
    case Some(rest) => Parse(rest)
  }

  /** One turn of the loop of parse0: what is sent, and what is left to read if the channel stays open. */
  method Turn(line: Bytes, rest: Bytes) returns (sent: seq<Payload>, next: Option<Bytes>)
    requires line != []
    ensures sent + Then(next) == ParseLine(line, rest) && (next.Some? ==> |next.value| <= |rest|)
  {
    var mark, text := line[0], line[1..];
    next := Some(rest);
    if mark == STATUS {
      sent := [Data(Status(text))];
      if FULLRESYNC <= text {
        var file := ReadFile(rest);
        if file.None? {
          return sent + [Closed], None;
        }
        sent, next := sent + [Data(Bulk(file.value.0))], Some(file.value.1);
      }
    } else if mark == ERROR {
      sent := [Data(Error(text))];
    } else if mark == COLON {
      var n := ParseInt(text);
      sent := if n.None? then [Bad] else [Data(Int(n.value))];
    } else if mark == DOLLAR {
      sent, next := ParseBulkString(text, rest);
    } else if mark == STAR {
      sent, next := ParseArrayLine(text, rest);
    } else {
      sent := [Data(Multi(Split(line)))];
    }
  }

  method ParseBulkString(text: Bytes, rest: Bytes) returns (sent: seq<Payload>, next: Option<Bytes>)
    ensures sent + Then(next) == ParseLine([DOLLAR] + text, rest) && (next.Some? ==> |next.value| <= |rest|)
  {
    assert ([DOLLAR] + text)[1..] == text;
    var n := ParseInt(text);
    if n.None? || n.value < -1 {
      return [Bad], Some(rest);
    }
    if n.value == -1 {
      return [Data(NullBulk)], Some(rest);
    }
    var body := Body(rest, n.value);
    if body.None? {
      return [Closed], None;
    }
    return [Data(Bulk(body.value.0))], Some(body.value.1);
  }

  method ParseArrayLine(text: Bytes, rest: Bytes) returns (sent: seq<Payload>, next: Option<Bytes>)
    ensures sent + Then(next) == ParseLine([STAR] + text, rest) && (next.Some? ==> |next.value| <= |rest|)
  {
    assert ([STAR] + text)[1..] == text;
    var n := ParseInt(text);
    if n.None? || n.value < 0 {
      return [Bad], Some(rest);
    }
    var r := ParseArray(n.value, rest);
    match r
    case Short => return [Closed], None;
    case Broken(args, after) => return [Bad, Data(Multi(args))], Some(after);
    case Whole(args, after) => return [Data(Multi(args))], Some(after);
  }

  method Parse0(input: Bytes) returns (out: seq<Payload>)
    ensures out == Parse(input)
  {
    out := [];
    var rest := input;
    while true
      invariant out + Parse(rest) == Parse(input)
      decreases |rest|
    {
      var split := SplitLine(rest);
      if split.None? {
        return out + [Closed];
      }
      var (line, after) := split.value;
      if |line| <= 2 || line[|line| - 2] != CR {
        rest := after;
        continue;
      }
      var sent, next := Turn(line[..|line| - 2], after);
      Associative(out, sent, Then(next));
      out := out + sent;
      if next.None? {
        return out;
      }
      rest := next.value;
    }
  }
}
