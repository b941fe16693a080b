/** Whole responses: what a SOCKS reply, a status line, header fields and a body decode to. */
module HttpResponse {
  import opened Prelude
  import opened HttpHead
  import opened ProxyHttp
  import Coding = ChunkedCoding
  import Text

  // ---- the SOCKS reply (section 6 of RFC 1928) ----

  datatype BoundAddress = IPv4(octets: seq<byte>) | IPv6(octets: seq<byte>) | Domain(name: seq<byte>)

  predicate Valid(a: BoundAddress) {
    match a
    case IPv4(octets) => |octets| == 4
    case IPv6(octets) => |octets| == 16
    case Domain(name) => |name| <= 255
  }

  function EncodeAddress(a: BoundAddress): seq<byte>
    requires Valid(a)
  {
    match a
    case IPv4(octets) => [1] + octets
    case IPv6(octets) => [4] + octets
    case Domain(name) => [3, |name|] + name
  }

  /** No authentication, then success with the bound address and port. */
  function SocksReply(a: BoundAddress, port: seq<byte>): seq<byte>
    requires Valid(a) && |port| == 2
  {
    [5, 0] + [5, 0, 0] + EncodeAddress(a) + port
  }

  /** Which replies are accepted and where each ends, byte by byte; how the others are refused. */
  lemma SocksMeaning(s: seq<byte>)
    ensures
      var r := Socks(s);
      if |s| < 2 then r == Err(Closed)
      else if s[0] != 5 || s[1] != 0 then r == Err(BadGreeting)
      else if |s| < 6 then r == Err(Closed)
      else if s[2] != 5 || s[3] != 0 || s[4] != 0 then r == Err(Rejected)
      else if s[5] == 1 then r == if |s| < 12 then Err(Closed) else Ok(((), s[12..]))
      else if s[5] == 4 then r == if |s| < 24 then Err(Closed) else Ok(((), s[24..]))
      else if s[5] == 3 then r == if |s| < 7 || |s| - s[6] < 9 then Err(Closed) else Ok(((), s[|s| - (|s| - s[6] - 9)..]))
      else r == Err(BadAddressType)
  {
    if |s| >= 2 {
      assert s[..2] == [s[0], s[1]];
      if |s| >= 6 {
        var rest := s[2..];
        assert rest[..4] == [s[2], s[3], s[4], s[5]] && rest[..4][..3] == [s[2], s[3], s[4]];
        assert rest[4..] == s[6..];
        if |s| >= 12 {
          assert s[6..][6..] == s[12..];
        }
        if |s| >= 24 {
          assert s[6..][18..] == s[24..];
        }
        if |s| >= 7 {
          var size: nat := s[6];
          assert s[6..][1..] == s[7..];
          if |s| - size >= 9 {
            assert s[7..][size + 2..] == s[size + 9..];
          }
        }
      }
    }
  }

  /** A well-formed success reply is consumed exactly, for every address type. */
  lemma SocksRoundTrip(a: BoundAddress, port: seq<byte>, rest: seq<byte>)
    requires Valid(a) && |port| == 2
    ensures Socks(SocksReply(a, port) + rest) == Ok(((), rest))
  {
    var s := SocksReply(a, port) + rest;
    SocksMeaning(s);
    assert s[0] == 5 && s[1] == 0 && s[2] == 5 && s[3] == 0 && s[4] == 0 && s[5] == EncodeAddress(a)[0];
    if a.Domain? {
      assert s[6] == |a.name| && s[|a.name| + 9..] == rest;
    } else if a.IPv4? {
      assert s[12..] == rest;
    } else {
      assert s[24..] == rest;
    }
  }

  // ---- status lines and fields ----

  lemma {:induction false} WordAtWhite(w: string, c: char, rest: string)
    requires Text.White(c) && forall x <- w :: !Text.White(x)
    ensures Word(w + [c] + rest) == w
  {
    var s := w + [c] + rest;
    if w == "" {
      assert s[0] == c;
    } else {
      assert s[0] == w[0] && s[1..] == w[1..] + [c] + rest;
      assert w[0] in w && forall x <- w[1..] :: x in w;
      WordAtWhite(w[1..], c, rest);
      assert w == [w[0]] + w[1..];
    }
  }

  /** A word and the white space behind it come off the front of a line. */
  lemma WordsStep(w: string, c: char, rest: string)
    requires w != "" && Text.White(c) && forall x <- w :: !Text.White(x)
    ensures Words(w + [c] + rest) == [w] + Words(rest)
  {
    var s := w + [c] + rest;
    assert s[0] == w[0] && w[0] in w;
    WordAtWhite(w, c, rest);
    assert s[|w|..] == [c] + rest;
    WordsFirst(s, w);
    WordsSkip(c, rest);
  }

  lemma WordsFirst(s: string, w: string)
    requires s != "" && !Text.White(s[0]) && Word(s) == w
    ensures Words(s) == [w] + Words(s[|w|..])
  {
    assert Text.TrimStart(s) == s;
  }

  lemma WordsSkip(c: char, rest: string)
    requires Text.White(c)
    ensures Words([c] + rest) == Words(rest)
  {
    assert ([c] + rest)[1..] == rest;
    assert Text.TrimStart([c] + rest) == Text.TrimStart(rest);
  }

  lemma StatusWords(v: string, digits: string, c: char, reason: string)
    requires v != "" && (forall x <- v :: !Text.White(x)) && Text.White(c)
    requires digits != "" && forall x <- digits :: !Text.White(x)
    ensures Words(v + [' '] + (digits + [c] + reason)) == [v] + ([digits] + Words(reason))
  {
    WordsStep(v, ' ', digits + [c] + reason);
    WordsStep(digits, c, reason);
  }

  predicate Decimal(digits: string) {
    digits != "" && forall c <- digits :: '0' <= c <= '9'
  }

  lemma {:induction false} DecimalDigits(digits: string)
    requires forall c <- digits :: '0' <= c <= '9'
    ensures Digits(digits, 10).Some?
  {
    if digits != "" {
      var most := digits[..|digits| - 1];
      assert digits[|digits| - 1] in digits && forall c <- most :: c in digits;
      DecimalDigits(most);
    }
  }

  function Value(digits: string): (n: nat)
    requires Decimal(digits)
    ensures Digits(digits, 10) == Some(n)
  {
    DecimalDigits(digits);
    Digits(digits, 10).value
  }

  lemma DecimalNumber(digits: string, max: nat)
    requires Decimal(digits)
    ensures Number(digits, 10, max) == if Value(digits) <= max then Some(Value(digits)) else None
  {
    assert digits[0] in digits;
  }

  // ---- numbers ----

  /** The digits of a base: 0 to 9, and for base 16 the letters of either case. */
  lemma DigitMeaning(c: char)
    ensures Digit(c, 10) == if '0' <= c <= '9' then Some(c as int - '0' as int) else None
    ensures Digit(c, 16) ==
            if '0' <= c <= '9' then Some(c as int - '0' as int)
            else if 'a' <= c <= 'f' then Some(c as int - 'a' as int + 10)
            else if 'A' <= c <= 'F' then Some(c as int - 'A' as int + 10)
            else None
  {
  }

  /** A text is a number exactly when all of it is digits. */
  lemma {:induction false} DigitsSomeIff(s: string, radix: nat)
    ensures Digits(s, radix).Some? <==> forall c <- s :: Digit(c, radix).Some?
  {
    if s != "" {
      DigitsSomeIff(s[..|s| - 1], radix);
      assert s == s[..|s| - 1] + [s[|s| - 1]];
    }
  }

  function Dec(n: nat): (s: string)
    ensures Decimal(s)
  {
    var digit := (48 + n % 10) as char;
    if n < 10 then [digit] else Dec(n / 10) + [digit]
  }

  /** Every number is read back from its decimal form. */
  lemma {:induction false} DecReadsBack(n: nat)
    ensures Value(Dec(n)) == n
  {
    var s := Dec(n);
    if n < 10 {
      assert s[..0] == "" && Digits(s[..0], 10) == Some(0);
      assert Digit(s[0], 10) == Some(n) && s[|s| - 1] == s[0];
    } else {
      DecReadsBack(n / 10);
      assert s[..|s| - 1] == Dec(n / 10);
    }
  }

  /** One plus sign is allowed in front of at least one digit; nothing, a sign alone or a value beyond the
      type is no number. */
  lemma NumberMeaning(s: string, radix: nat, max: nat)
    ensures s == "" || s == "+" ==> Number(s, radix, max).None? || Digit('+', radix).Some?
    ensures s != "" && s[0] != '+' ==>
              Number(['+'] + s, radix, max) == Number(s, radix, max) &&
              Number(s, radix, max) ==
              if Digits(s, radix).Some? && Digits(s, radix).value <= max then Digits(s, radix) else None
  {
    assert (['+'] + s)[1..] == s;
    if s == "+" {
      assert s[0] == '+';
      DigitsSomeIff(s, radix);
    }
  }

  /** A status line without a code is refused. */
  lemma CodelessRefused(v: string, line: string)
    requires KnownVersion(v) && |Words(line)| == 1 && Words(line)[0] == v
    ensures Status(line) == Err(BadCode)
  {
  }

  function StatusLine(v: string, digits: string, reason: string): string {
    v + [' '] + (digits + [' '] + reason)
  }

  /** A status line of either version is read as its code, if that fits 16 bits. */
  lemma StatusMeaning(v: string, digits: string, reason: string)
    requires (v == "HTTP/1.0" || v == "HTTP/1.1") && Decimal(digits)
    ensures Status(StatusLine(v, digits, reason)) == if Value(digits) <= 65535 then Ok(Value(digits)) else Err(BadCode)
  {
    VersionIsAWord(v);
    StatusLineWords(v, digits, reason, StatusLine(v, digits, reason));
    DecimalNumber(digits, 65535);
    StatusOfWords(StatusLine(v, digits, reason), v, digits, Number(digits, 10, 65535));
  }

  lemma StatusLineWords(v: string, digits: string, reason: string, line: string)
    requires v != "" && (forall x <- v :: !Text.White(x)) && Decimal(digits) && line == StatusLine(v, digits, reason)
    ensures |Words(line)| > 1 && Words(line)[0] == v && Words(line)[1] == digits
  {
    StatusWords(v, digits, ' ', reason);
  }

  lemma VersionIsAWord(v: string)
    requires v == "HTTP/1.0" || v == "HTTP/1.1"
    ensures v != "" && forall x <- v :: !Text.White(x)
  {
  }

  lemma StatusOfWords(line: string, v: string, digits: string, code: Option<nat>)
    requires |Words(line)| > 1 && Words(line)[0] == v && Words(line)[1] == digits
    requires KnownVersion(v) && Number(digits, 10, 65535) == code
    ensures Status(line) == if code.Some? then Ok(code.value) else Err(BadCode)
  {
  }

  /** A line that starts with any other word is refused. */
  lemma OtherStatusRefused(v: string, c: char, rest: string)
    requires v != "" && v != "HTTP/1.0" && v != "HTTP/1.1" && Text.White(c) && forall x <- v :: !Text.White(x)
    ensures Status(v + [c] + rest) == Err(BadStatus)
  {
    WordsStep(v, c, rest);
    OtherWordRefused(v + [c] + rest, v);
  }

  lemma OtherWordRefused(line: string, v: string)
    requires Words(line) != [] && Words(line)[0] == v && v != "HTTP/1.0" && v != "HTTP/1.1"
    ensures Status(line) == Err(BadStatus)
  {
  }

  lemma ColonAt(name: string, value: string)
    requires ':' !in name
    ensures Colon(name + [':'] + value) == |name|
  {
    var line := name + [':'] + value;
    assert line[|name|] == ':';
    assert forall j :: 0 <= j < |name| ==> line[j] == name[j] && name[j] in name;
  }

  /** What a header line says, by its name in any case. */
  lemma FieldMeaning(name: string, value: string)
    requires ':' !in name
    ensures Classify(name + [':'] + value) ==
            if Text.Lower(name) == "content-length" then Length(Number(Text.Trim(value), 10, 0xFFFF_FFFF_FFFF_FFFF))
            else if Text.Lower(name) == "transfer-encoding" then Encoding(Text.Lower(Text.Trim(value)) == "chunked")
            else Other
  {
    var line := name + [':'] + value;
    ColonAt(name, value);
    assert line[..|name|] == name && line[|name| + 1..] == value;
  }

  /** A decimal length, padded or not, is read as its value. */
  lemma LengthFieldMeaning(name: string, before: string, digits: string, after: string)
    requires ':' !in name && Text.Lower(name) == "content-length" && Decimal(digits)
    requires (forall c <- before :: Text.White(c)) && (forall c <- after :: Text.White(c))
    ensures Classify(name + [':'] + (before + digits + after)) ==
            Length(if Value(digits) <= 0xFFFF_FFFF_FFFF_FFFF then Some(Value(digits)) else None)
  {
    assert digits[0] in digits && digits[|digits| - 1] in digits;
    Text.TrimBetween(before, digits, after);
    TrimmedLength(name, before + digits + after, digits);
  }

  lemma TrimmedLength(name: string, value: string, digits: string)
    requires ':' !in name && Text.Lower(name) == "content-length" && Decimal(digits) && Text.Trim(value) == digits
    ensures Classify(name + [':'] + value) ==
            Length(if Value(digits) <= 0xFFFF_FFFF_FFFF_FFFF then Some(Value(digits)) else None)
  {
    FieldMeaning(name, value);
    DecimalNumber(digits, 0xFFFF_FFFF_FFFF_FFFF);
  }

  lemma ColonlessIsOther(line: string)
    requires ':' !in line
    ensures Classify(line) == Other
  {
    assert forall j :: 0 <= j < |line| ==> line[j] in line;
  }

  // ---- lines ----

  const BREAK: string := ['\r', '\n']

  /** Lines, each with its line break, and the blank line. */
  function HeadText(lines: seq<string>): string {
    if lines == [] then BREAK else lines[0] + BREAK + HeadText(lines[1..])
  }

  predicate Unbroken(line: string) {
    '\r' !in line
  }

  lemma {:induction false} LinesAtBreak(line: string, rest: string)
    requires Unbroken(line)
    ensures Lines(line + BREAK + rest) == [line] + Lines(rest)
  {
    var s := line + BREAK + rest;
    if line == "" {
      assert s[0] == '\r' && s[1] == '\n' && s[2..] == rest;
    } else {
      assert s[0] == line[0] && line[0] in line && s[1..] == line[1..] + BREAK + rest;
      assert forall c <- line[1..] :: c in line;
      LinesAtBreak(line[1..], rest);
      assert line == [line[0]] + line[1..];
      var tail := Lines(s[1..]);
      assert tail[0] == line[1..] && tail[1..] == Lines(rest);
    }
  }

  /** A head splits into its lines, with two empty ones for the blank line. */
  lemma {:induction false} LinesOfHead(lines: seq<string>)
    requires forall line <- lines :: Unbroken(line)
    ensures Lines(HeadText(lines)) == lines + ["", ""]
  {
    if lines == [] {
      LinesAtBreak("", "");
      assert "" + BREAK + "" == BREAK;
    } else {
      assert lines[0] in lines && forall line <- lines[1..] :: line in lines;
      LinesOfHead(lines[1..]);
      LinesAtBreak(lines[0], HeadText(lines[1..]));
      assert lines == [lines[0]] + lines[1..];
    }
  }

  lemma {:induction false} ClassifiedAppend(a: seq<string>, b: seq<string>)
    ensures Classified(a + b) == Classified(a) + Classified(b)
  {
    if a == [] {
      assert a + b == b;
    } else {
      assert (a + b)[1..] == a[1..] + b;
      ClassifiedAppend(a[1..], b);
    }
  }

  lemma {:induction false} FramesIgnoreOther(f: Framing, fields: seq<Field>, n: nat)
    ensures Frames(f, fields + seq(n, _ => Other)) == Frames(f, fields)
    decreases |fields| + n
  {
    var all := fields + seq(n, _ => Other);
    if fields != [] {
      assert all[0] == fields[0] && all[1..] == fields[1..] + seq(n, _ => Other);
      var next := AddField(f, fields[0]);
      if next.Ok? {
        FramesIgnoreOther(next.value, fields[1..], n);
      }
    } else if n > 0 {
      assert all[0] == Other && all[1..] == [] + seq(n - 1, _ => Other);
      FramesIgnoreOther(f, [], n - 1);
    }
  }

  lemma BlankLinesAreOther(fields: seq<string>)
    ensures Frames(NO_FRAMING, Classified(fields + ["", ""])) == Frames(NO_FRAMING, Classified(fields))
  {
    ClassifiedAppend(fields, ["", ""]);
    var blank: string := "";
    ColonlessIsOther(blank);
    assert ["", ""][1..] == [""] && [""][1..] == [];
    assert Classified([""]) == [Classify("")] + Classified([""][1..]);
    assert Classified(["", ""]) == [Other, Other];
    assert Classified(fields) + [Other, Other] == Classified(fields) + seq(2, _ => Other);
    FramesIgnoreOther(NO_FRAMING, Classified(fields), 2);
  }

  /** What a head with this status and these fields says: its code, and the framing of the fields. */
  function Meant(code: nat, fields: seq<string>): Result<(nat, Body), Error> {
    if code > 65535 then Err(BadCode)
    else if code == 204 then Ok((204, Empty))
    else
      var f := Frames(NO_FRAMING, Classified(fields));
      if f.Err? then Err(f.error)
      else
        var body := BodyOf(f.value);
        if body.Err? then Err(body.error) else Ok((code, body.value))
  }

  lemma HeadOfLines(v: string, digits: string, reason: string, fields: seq<string>)
    requires (v == "HTTP/1.0" || v == "HTTP/1.1") && Decimal(digits)
    requires Unbroken(StatusLine(v, digits, reason)) && forall line <- fields :: Unbroken(line)
    ensures Head(HeadText([StatusLine(v, digits, reason)] + fields)) == Meant(Value(digits), fields)
  {
    var status := StatusLine(v, digits, reason);
    var lines := [status] + fields;
    LinesOfHead(lines);
    assert (lines + ["", ""])[0] == status && (lines + ["", ""])[1..] == fields + ["", ""];
    StatusMeaning(v, digits, reason);
    HeadFromParts(HeadText(lines), status, Value(digits), fields);
  }

  lemma HeadFromParts(text: string, status: string, code: nat, fields: seq<string>)
    requires Lines(text)[0] == status && Lines(text)[1..] == fields + ["", ""]
    requires Status(status) == if code <= 65535 then Ok(code) else Err(BadCode)
    ensures Head(text) == Meant(code, fields)
  {
    BlankLinesAreOther(fields);
  }

  // ---- finding the end of the head ----

  const LIMIT := 16384

  function Reading(done: seq<byte>, s: seq<byte>): Decoded<seq<byte>> {
    Until(done, s, BLANK_LINE, LIMIT, HeadersTooLarge)
  }

  /** Not at the end of the head, and not inside a line break. */
  predicate Quiet(done: seq<byte>) {
    !EndsWith(done, BLANK_LINE) && (done == [] || done[|done| - 1] != 13)
  }

  lemma ReadingStep(done: seq<byte>, b: byte, rest: seq<byte>)
    requires !EndsWith(done, BLANK_LINE)
    ensures Reading(done, [b] + rest) == if |done| < LIMIT then Reading(done + [b], rest) else Err(HeadersTooLarge)
  {
    var s := [b] + rest;
    assert s[0] == b && s[1..] == rest;
  }

  lemma BlankAt(s: seq<byte>)
    ensures EndsWith(s, BLANK_LINE) <==>
            var n := |s|;
            n >= 4 && s[n - 4] == 13 && s[n - 3] == 10 && s[n - 2] == 13 && s[n - 1] == 10
  {
    var n := |s|;
    if n >= 4 {
      assert s[n - 4..] == [s[n - 4], s[n - 3], s[n - 2], s[n - 1]];
    }
  }

  lemma QuietMore(done: seq<byte>, b: byte)
    requires Quiet(done) && b != 13
    ensures Quiet(done + [b])
  {
    BlankAt(done + [b]);
  }

  lemma {:induction false} ReadingPlain(done: seq<byte>, line: seq<byte>, rest: seq<byte>)
    requires Quiet(done) && 13 !in line && |done| <= LIMIT
    ensures Reading(done, line + rest) ==
            if |done| + |line| <= LIMIT then Reading(done + line, rest) else Err(HeadersTooLarge)
    decreases |line|
  {
    if line == [] {
      assert line + rest == rest && done + line == done;
    } else {
      assert line + rest == [line[0]] + (line[1..] + rest);
      assert line[0] in line && forall b <- line[1..] :: b in line;
      ReadingStep(done, line[0], line[1..] + rest);
      QuietMore(done, line[0]);
      assert done + [line[0]] + line[1..] == done + line;
      if |done| < LIMIT {
        ReadingPlain(done + [line[0]], line[1..], rest);
      }
    }
  }

  lemma QuietAll(done: seq<byte>, line: seq<byte>)
    requires Quiet(done) && 13 !in line
    ensures Quiet(done + line)
  {
    var all := done + line;
    BlankAt(all);
    if line == [] {
      assert all == done;
    } else {
      assert all[|all| - 1] == line[|line| - 1] && line[|line| - 1] in line;
      if |line| > 1 {
        assert all[|all| - 2] == line[|line| - 2] && line[|line| - 2] in line;
      } else if done != [] {
        assert all[|all| - 2] == done[|done| - 1];
      }
    }
  }

  lemma OpenAfterReturn(done: seq<byte>)
    ensures !EndsWith(done + [13], BLANK_LINE)
  {
    BlankAt(done + [13]);
  }

  /** A line break right behind another one ends the head, and any other leaves it open. */
  lemma BreakEndsIff(done: seq<byte>)
    ensures EndsWith(done + CRLF, BLANK_LINE) <==> |done| >= 2 && done[|done| - 2] == 13 && done[|done| - 1] == 10
  {
    BlankAt(done + CRLF);
  }

  lemma ReadingBreak(done: seq<byte>, rest: seq<byte>)
    requires Quiet(done)
    ensures Reading(done, CRLF + rest) ==
            if |done| + 2 <= LIMIT then Reading(done + CRLF, rest) else Err(HeadersTooLarge)
  {
    assert CRLF + rest == [13] + ([10] + rest);
    OpenAfterReturn(done);
    ReadingStep(done, 13, [10] + rest);
    ReadingStep(done + [13], 10, rest);
    assert done + [13] + [10] == done + CRLF;
  }

  lemma LineEndsPlain(done: seq<byte>, line: seq<byte>)
    requires line != [] && 13 !in line && Quiet(done)
    ensures
      var all := done + line;
      |all| < 2 || all[|all| - 2] != 13
  {
    var all := done + line;
    if |line| >= 2 {
      assert all[|all| - 2] == line[|line| - 2] && line[|line| - 2] in line;
    } else if done != [] {
      assert all[|all| - 2] == done[|done| - 1];
    }
  }

  lemma LineStaysQuiet(done: seq<byte>, line: seq<byte>)
    requires Quiet(done) && line != [] && 13 !in line
    ensures Quiet(done + line + CRLF)
  {
    LineEndsPlain(done, line);
    BreakEndsIff(done + line);
  }

  /** What is read of `s` after `done` is what is read of `rest` after `more`, within the limit. */
  ghost predicate Leads(done: seq<byte>, s: seq<byte>, more: seq<byte>, rest: seq<byte>) {
    Reading(done, s) == if |more| <= LIMIT then Reading(more, rest) else Err(HeadersTooLarge)
  }

  lemma LeadsOn(done: seq<byte>, s: seq<byte>, mid: seq<byte>, t: seq<byte>, more: seq<byte>, rest: seq<byte>)
    requires Leads(done, s, mid, t) && |mid| <= |more| && (|mid| <= LIMIT ==> Leads(mid, t, more, rest))
    ensures Leads(done, s, more, rest)
  {
  }

  lemma PlainLeads(done: seq<byte>, line: seq<byte>, rest: seq<byte>)
    requires Quiet(done) && 13 !in line && |done| <= LIMIT
    ensures Leads(done, line + rest, done + line, rest) && Quiet(done + line)
  {
    ReadingPlain(done, line, rest);
    QuietAll(done, line);
  }

  lemma BreakLeads(done: seq<byte>, rest: seq<byte>)
    requires Quiet(done)
    ensures Leads(done, CRLF + rest, done + CRLF, rest)
  {
    ReadingBreak(done, rest);
  }

  /** One more line of the head. */
  lemma ReadingLine(done: seq<byte>, line: seq<byte>, rest: seq<byte>)
    requires Quiet(done) && line != [] && 13 !in line && |done| <= LIMIT
    ensures Leads(done, line + CRLF + rest, done + line + CRLF, rest)
  {
    assert line + CRLF + rest == line + (CRLF + rest);
    PlainLeads(done, line, CRLF + rest);
    BreakLeads(done + line, rest);
    LeadsOn(done, line + (CRLF + rest), done + line, CRLF + rest, done + line + CRLF, rest);
  }

  /** The blank line ends the head. */
  lemma ReadingBlank(done: seq<byte>, rest: seq<byte>)
    requires Quiet(done) && |done| >= 2 && done[|done| - 2] == 13 && done[|done| - 1] == 10
    ensures Reading(done, CRLF + rest) ==
            if |done| + 2 <= LIMIT then Ok((done + CRLF, rest)) else Err(HeadersTooLarge)
  {
    ReadingBreak(done, rest);
    BreakEndsIff(done);
  }

  /** Reading `s` after `done` ends with `all` read and `rest` left, within the limit. */
  ghost predicate EndsAt(done: seq<byte>, s: seq<byte>, all: seq<byte>, rest: seq<byte>) {
    Reading(done, s) == if |all| <= LIMIT then Ok((all, rest)) else Err(HeadersTooLarge)
  }

  lemma EndsAfter(done: seq<byte>, line: seq<byte>, tail: seq<byte>, rest: seq<byte>)
    requires
      var more := done + line + CRLF;
      && Leads(done, line + CRLF + (tail + rest), more, tail + rest)
      && (|more| <= LIMIT ==> EndsAt(more, tail + rest, more + tail, rest))
    ensures EndsAt(done, line + CRLF + tail + rest, done + (line + CRLF + tail), rest)
  {
    assert line + CRLF + tail + rest == line + CRLF + (tail + rest);
    assert done + line + CRLF + tail == done + (line + CRLF + tail);
  }

  /** A head of non-empty lines is read whole and no further, if it is within the limit. */
  lemma {:induction false} ReadingHead(done: seq<byte>, lines: seq<string>, rest: seq<byte>)
    requires Quiet(done) && |done| <= LIMIT && forall line <- lines :: line != "" && Unbroken(line)
    requires lines == [] ==> |done| >= 2 && done[|done| - 2] == 13 && done[|done| - 1] == 10
    ensures
      var head := Coding.ToBytes(HeadText(lines));
      EndsAt(done, head + rest, done + head, rest)
    decreases |lines|
  {
    if lines == [] {
      assert Coding.ToBytes(BREAK) == CRLF;
      ReadingBlank(done, rest);
    } else {
      var line, tail := Coding.ToBytes(lines[0]), Coding.ToBytes(HeadText(lines[1..]));
      assert lines[0] in lines && forall l <- lines[1..] :: l in lines;
      HeadBytes(lines);
      UnbrokenBytes(lines[0]);
      ReadingLine(done, line, tail + rest);
      LineStaysQuiet(done, line);
      var more := done + line + CRLF;
      assert more[|more| - 2] == 13 && more[|more| - 1] == 10;
      if |more| <= LIMIT {
        ReadingHead(more, lines[1..], rest);
      }
      EndsAfter(done, line, tail, rest);
    }
  }

  lemma HeadBytes(lines: seq<string>)
    requires lines != []
    ensures Coding.ToBytes(HeadText(lines)) ==
            Coding.ToBytes(lines[0]) + CRLF + Coding.ToBytes(HeadText(lines[1..]))
  {
  }

  lemma UnbrokenBytes(line: string)
    requires Unbroken(line)
    ensures 13 !in Coding.ToBytes(line)
  {
    forall i | 0 <= i < |line|
      ensures Coding.ToBytes(line)[i] != 13
    {
      assert line[i] in line;
    }
  }

  // ---- whole responses ----

  predicate Ascii(line: string) {
    forall c <- line :: c < 128 as char
  }

  lemma {:induction false} HeadIsAscii(lines: seq<string>)
    requires forall line <- lines :: Ascii(line)
    ensures Ascii(HeadText(lines))
  {
    if lines != [] {
      assert lines[0] in lines && forall l <- lines[1..] :: l in lines;
      HeadIsAscii(lines[1..]);
    }
  }

  /** A response as a server sends it through the proxy. */
  function Response(a: BoundAddress, port: seq<byte>, lines: seq<string>, body: seq<byte>): seq<byte>
    requires Valid(a) && |port| == 2
  {
    SocksReply(a, port) + (Coding.ToBytes(HeadText(lines)) + body)
  }

  /** Lines a server may send: ASCII, not empty, without line breaks. */
  predicate Sent(lines: seq<string>) {
    lines != [] && forall line <- lines :: line != "" && Unbroken(line) && Ascii(line)
  }

  /** The decoder takes the head apart from the body wherever they meet, and decodes each. */
  lemma ResponseDecodes(
      a: BoundAddress, port: seq<byte>, lines: seq<string>, body: seq<byte>, utf8: seq<byte> -> Option<string>)
    requires Valid(a) && |port| == 2 && Sent(lines) && Coding.ReadsAscii(utf8)
    ensures
      var r, head := Decode(Response(a, port, lines, body), utf8), Head(HeadText(lines));
      if |HeadText(lines)| > 16384 then r == Err(HeadersTooLarge)
      else if head.Err? then r == Err(head.error)
      else
        var content := Content(head.value.1, body, utf8);
        r == if content.Err? then Err(content.error) else Ok((head.value.0, content.value))
  {
    var head := Coding.ToBytes(HeadText(lines));
    SocksRoundTrip(a, port, head + body);
    ReadingHead([], lines, body);
    assert [] + head == head;
    HeadIsAscii(lines);
    assert utf8(head) == Some(HeadText(lines));
  }

  /** The lines of a response: its status line and its header fields. */
  function AllLines(v: string, digits: string, reason: string, fields: seq<string>): seq<string> {
    [StatusLine(v, digits, reason)] + fields
  }

  predicate Plausible(v: string, digits: string, reason: string, fields: seq<string>) {
    && (v == "HTTP/1.0" || v == "HTTP/1.1") && Decimal(digits) && Value(digits) <= 65535 && Value(digits) != 204
    && Sent(AllLines(v, digits, reason, fields))
    && |HeadText(AllLines(v, digits, reason, fields))| <= 16384
  }

  lemma FramedResponse(
      a: BoundAddress, port: seq<byte>, v: string, digits: string, reason: string, fields: seq<string>,
      framing: Framing, body: seq<byte>, utf8: seq<byte> -> Option<string>)
    requires Valid(a) && |port| == 2 && Plausible(v, digits, reason, fields) && Coding.ReadsAscii(utf8)
    requires Frames(NO_FRAMING, Classified(fields)) == Ok(framing) && BodyOf(framing).Ok?
    ensures
      var r := Decode(Response(a, port, AllLines(v, digits, reason, fields), body), utf8);
      var content := Content(BodyOf(framing).value, body, utf8);
      r == if content.Err? then Err(content.error) else Ok((Value(digits), content.value))
  {
    var lines := AllLines(v, digits, reason, fields);
    assert lines[0] == StatusLine(v, digits, reason) && lines[0] in lines && forall f <- fields :: f in lines;
    HeadOfLines(v, digits, reason, fields);
    ResponseDecodes(a, port, lines, body, utf8);
  }

  /** A response with one Content-Length and no chunked coding gives exactly that many bytes, for every
      address type and whatever follows; a shorter body is refused. */
  lemma SizedResponse(
      a: BoundAddress, port: seq<byte>, v: string, digits: string, reason: string, fields: seq<string>,
      n: nat, body: seq<byte>, utf8: seq<byte> -> Option<string>)
    requires Valid(a) && |port| == 2 && Plausible(v, digits, reason, fields) && Coding.ReadsAscii(utf8)
    requires Consistent(Classified(fields)) && Length(Some(n)) in Classified(fields)
    requires Encoding(true) !in Classified(fields)
    ensures n <= 65536
    ensures Decode(Response(a, port, AllLines(v, digits, reason, fields), body), utf8) ==
            if n <= |body| then Ok((Value(digits), body[..n])) else Err(Closed)
  {
    FramingMeaning(Classified(fields));
    var framing := Frames(NO_FRAMING, Classified(fields)).value;
    assert framing.length == Some(n) && !framing.chunked;
    FramedResponse(a, port, v, digits, reason, fields, framing, body, utf8);
  }

  /** A chunked response gives the concatenation of its chunks, exactly when that is within the limit and the
      size lines fit. */
  lemma ChunkedResponse(
      a: BoundAddress, port: seq<byte>, v: string, digits: string, reason: string, fields: seq<string>,
      ps: seq<Coding.Piece>, last: Coding.SizeLine, tail: seq<byte>, utf8: seq<byte> -> Option<string>)
    requires Valid(a) && |port| == 2 && Plausible(v, digits, reason, fields) && Coding.ReadsAscii(utf8)
    requires Consistent(Classified(fields)) && Encoding(true) in Classified(fields)
    requires (forall f <- Classified(fields) :: !f.Length?) && Coding.Sendable(ps, last)
    ensures
      var r := Decode(Response(a, port, AllLines(v, digits, reason, fields), Coding.Coded(ps, last, tail)), utf8);
      if Coding.AllFit(ps, last) && |Coding.Joined(ps)| <= 65536 then r == Ok((Value(digits), Coding.Joined(ps))) else r.Err?
  {
    FramingMeaning(Classified(fields));
    var framing := Frames(NO_FRAMING, Classified(fields)).value;
    NoLength(Classified(fields));
    FramedResponse(a, port, v, digits, reason, fields, framing, Coding.Coded(ps, last, tail), utf8);
    Coding.DecodesConcatenation(ps, last, tail, utf8);
  }

  lemma NoLength(fields: seq<Field>)
    requires Consistent(fields) && forall f <- fields :: !f.Length?
    ensures Frames(NO_FRAMING, fields).Ok? && Frames(NO_FRAMING, fields).value.length.None?
  {
    FramingMeaning(fields);
    assert forall n: nat :: Length(Some(n)) !in fields;
  }

  /** A response with neither gives everything up to the close, if that is within the limit. */
  lemma ClosedResponse(
      a: BoundAddress, port: seq<byte>, v: string, digits: string, reason: string, fields: seq<string>,
      body: seq<byte>, utf8: seq<byte> -> Option<string>)
    requires Valid(a) && |port| == 2 && Plausible(v, digits, reason, fields) && Coding.ReadsAscii(utf8)
    requires forall f <- Classified(fields) :: f == Other
    ensures Decode(Response(a, port, AllLines(v, digits, reason, fields), body), utf8) ==
            if |body| <= 65536 then Ok((Value(digits), body)) else Err(TooLarge)
  {
    var said := Classified(fields);
    assert forall i :: 0 <= i < |said| ==> said[i] in said;
    FramingMeaning(said);
    NoLength(said);
    var framing := Frames(NO_FRAMING, Classified(fields)).value;
    FramedResponse(a, port, v, digits, reason, fields, framing, body, utf8);
  }

  /** A 204 response has no body, whatever its fields and whatever follows. */
  lemma EmptyResponse(
      a: BoundAddress, port: seq<byte>, v: string, digits: string, reason: string, fields: seq<string>,
      body: seq<byte>, utf8: seq<byte> -> Option<string>)
    requires Valid(a) && |port| == 2 && Coding.ReadsAscii(utf8)
    requires (v == "HTTP/1.0" || v == "HTTP/1.1") && Decimal(digits) && Value(digits) == 204
    requires Sent(AllLines(v, digits, reason, fields)) && |HeadText(AllLines(v, digits, reason, fields))| <= 16384
    ensures Decode(Response(a, port, AllLines(v, digits, reason, fields), body), utf8) == Ok((204, []))
  {
    var lines := AllLines(v, digits, reason, fields);
    assert lines[0] == StatusLine(v, digits, reason) && lines[0] in lines && forall f <- fields :: f in lines;
    HeadOfLines(v, digits, reason, fields);
    ResponseDecodes(a, port, lines, body, utf8);
  }

  /** A head that is not text is refused. */
  lemma NotTextRefused(a: BoundAddress, port: seq<byte>, s: seq<byte>, utf8: seq<byte> -> Option<string>)
    requires Valid(a) && |port| == 2 && Reading([], s).Ok? && utf8(Reading([], s).value.0).None?
    ensures Decode(SocksReply(a, port) + s, utf8) == Err(NotText)
  {
    SocksRoundTrip(a, port, s);
  }

  /** Behind a chunk size the data and a line break must follow: too much data is refused before it is read,
      a stream that ends is refused, and so is any other byte pair. */
  lemma ChunkMeaning(body: seq<byte>, n: nat, s: seq<byte>)
    requires |body| <= 65536
    ensures
      Chunk(body, n, s) ==
      if |body| + n > 65536 then Err(TooLarge)
      else if |s| < n + 2 then Err(Closed)
      else if s[n] != 13 || s[n + 1] != 10 then Err(BadChunkEnd)
      else Ok((body + s[..n], s[n + 2..]))
  {
    if |s| >= n + 2 {
      assert s[n..n + 2] == [s[n], s[n + 1]];
    }
  }
}
