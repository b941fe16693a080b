/** The chunked transfer coding (section 7.1 of RFC 9112) against the decoder of the diagnostic client. */
module ChunkedCoding {
  import opened Prelude
  import opened HttpHead
  import opened ProxyHttp
  import Text

  // ---- sizes in hexadecimal ----

  function HexDigit(d: nat): (c: char)
    requires d < 16
    ensures Digit(c, 16) == Some(d)
  {
    if d < 10 then (48 + d) as char else (87 + d) as char
  }

  function Hex(n: nat): (s: string)
    ensures s != ""
    ensures forall c <- s :: Digit(c, 16).Some?
    ensures Digits(s, 16) == Some(n)
  {
    if n < 16 then
      var s := [HexDigit(n)];
      assert s[..0] == "" && Digits(s[..0], 16) == Some(0);
      s
    else
      var high, low := Hex(n / 16), HexDigit(n % 16);
      assert (high + [low])[..|high|] == high;
      high + [low]
  }

  /** Hexadecimal digits of either case, with any number of leading zeros. */
  predicate Spelled(size: string) {
    size != "" && forall c <- size :: Digit(c, 16).Some?
  }

  lemma {:induction false} SpelledDigits(size: string)
    requires forall c <- size :: Digit(c, 16).Some?
    ensures Digits(size, 16).Some?
  {
    if size != "" {
      var most := size[..|size| - 1];
      assert size[|size| - 1] in size && forall c <- most :: c in size;
      SpelledDigits(most);
    }
  }

  lemma SpelledChars(size: string)
    requires Spelled(size)
    ensures forall c <- size :: '0' <= c <= 'f' && c != ';'
  {
  }

  /** Every number has a spelling. */
  lemma HexSpells(n: nat)
    ensures Spelled(Hex(n)) && Digits(Hex(n), 16) == Some(n)
  {
  }

  // ---- size lines ----

  /** A size line: the size, white space, an extension. */
  datatype SizeLine = SizeLine(size: string, pad: string, ext: string)

  predicate WellFormed(x: SizeLine) {
    && Spelled(x.size)
    && (forall c <- x.pad :: c == ' ' || c == '\t')
    && (forall c <- x.ext :: c == '\t' || ' ' <= c <= '~')
    && (x.ext != "" ==> x.ext[0] == ';')
  }

  /** The number a size line declares. */
  function Declared(x: SizeLine): (n: nat)
    requires WellFormed(x)
    ensures Digits(x.size, 16) == Some(n)
  {
    SpelledDigits(x.size);
    Digits(x.size, 16).value
  }

  function Line(x: SizeLine): string {
    x.size + x.pad + x.ext
  }

  function ToBytes(s: string): (b: seq<byte>)
    ensures |b| == |s|
  {
    seq(|s|, i requires 0 <= i < |s| => if s[i] < 128 as char then s[i] as int else 63)
  }

  /** The text decoder reads ASCII as itself. */
  ghost predicate ReadsAscii(utf8: seq<byte> -> Option<string>) {
    forall s: string :: (forall c <- s :: c < 128 as char) ==> utf8(ToBytes(s)) == Some(s)
  }

  /** Trimming the end stops at a character that is not white. */
  lemma {:induction false} TrimEndStops(a: string, c: char, b: string)
    requires !Text.White(c)
    ensures a + [c] <= Text.TrimEnd(a + [c] + b)
    decreases |b|
  {
    var s := a + [c] + b;
    if b == "" {
      assert s == a + [c] && s[|s| - 1] == c;
    } else if Text.White(s[|s| - 1]) {
      assert s[..|s| - 1] == a + [c] + b[..|b| - 1];
      TrimEndStops(a, c, b[..|b| - 1]);
    }
  }

  lemma {:induction false} SplitFirst(a: string, b: string)
    requires forall c <- a :: c != ';'
    requires b == "" || b[0] == ';'
    ensures Text.Split(a + b, {';'})[0] == a
  {
    if a == "" {
      assert a + b == b;
    } else {
      assert (a + b)[1..] == a[1..] + b && (a + b)[0] == a[0];
      assert a[0] in a && forall c <- a[1..] :: c in a;
      SplitFirst(a[1..], b);
      assert a == [a[0]] + a[1..];
    }
  }

  lemma TrimBare(hex: string, white: string)
    requires hex != "" && !Text.White(hex[0]) && !Text.White(hex[|hex| - 1])
    requires forall c <- white :: Text.White(c)
    ensures Text.Trim(hex + white) == hex
  {
    assert (hex + white)[0] == hex[0];
    Text.TrimEndWhite(hex, white);
  }

  lemma SplitBare(a: string)
    requires forall c <- a :: c != ';'
    ensures Text.Split(a, {';'})[0] == a
  {
    var none := a[..0];
    SplitFirst(a, none);
    assert a + none == a;
  }

  lemma BareSizeText(hex: string, white: string)
    requires hex != "" && (forall c <- hex :: '0' <= c <= 'f' && c != ';') && forall c <- white :: Text.White(c)
    ensures Text.Split(Text.Trim(hex + white), {';'})[0] == hex
  {
    assert hex[0] in hex && hex[|hex| - 1] in hex;
    TrimBare(hex, white);
    SplitBare(hex);
  }

  lemma ExtendedSizeText(a: string, ext: string, white: string)
    requires a != "" && !Text.White(a[0]) && (forall c <- a :: c != ';') && forall c <- white :: Text.White(c)
    ensures Text.Split(Text.Trim(a + [';'] + ext + white), {';'})[0] == a
  {
    var line := a + [';'] + ext;
    assert (line + white)[0] == a[0];
    Text.TrimEndWhite(line, white);
    TrimEndStops(a, ';', ext);
    var t := Text.TrimEnd(line);
    assert Text.Trim(line + white) == t;
    assert t == a + t[|a|..] && t[|a|] == ';';
    SplitFirst(a, t[|a|..]);
  }

  /** The text in front of the first semicolon of a trimmed size line. */
  lemma SizeText(x: SizeLine, end: string)
    requires WellFormed(x) && forall c <- end :: Text.White(c)
    ensures Text.Split(Text.Trim(Line(x) + end), {';'})[0] == if x.ext == "" then x.size else x.size + x.pad
  {
    SpelledChars(x.size);
    if x.ext == "" {
      assert Line(x) + end == x.size + (x.pad + end);
      BareSizeText(x.size, x.pad + end);
    } else {
      var a := x.size + x.pad;
      assert a[0] == x.size[0] && x.size[0] in x.size;
      assert Line(x) == a + [';'] + x.ext[1..];
      ExtendedSizeText(a, x.ext[1..], end);
    }
  }

  lemma PaddedIsNoNumber(size: string, pad: string)
    requires Spelled(size) && pad != "" && forall c <- pad :: c == ' ' || c == '\t'
    ensures Number(size + pad, 16, USIZE_MAX).None?
  {
    SpelledChars(size);
    var s := size + pad;
    assert s[|s| - 1] == pad[|pad| - 1] && pad[|pad| - 1] in pad;
    assert s[0] == size[0] && size[0] in size;
  }

  lemma SpelledIsNumber(x: SizeLine)
    requires WellFormed(x)
    ensures Number(x.size, 16, USIZE_MAX) == if Declared(x) <= USIZE_MAX then Some(Declared(x)) else None
  {
    SpelledChars(x.size);
    assert x.size[0] in x.size;
  }

  lemma BytesAndEnd(line: string, end: string)
    requires |end| == 2 && end[0] == '\r' && end[1] == '\n'
    ensures ToBytes(line + end) == ToBytes(line) + CRLF
  {
  }

  lemma LineIsAscii(x: SizeLine, end: string)
    requires WellFormed(x) && forall c <- end :: c < 128 as char
    ensures forall c <- Line(x) + end :: c < 128 as char
  {
    SpelledChars(x.size);
  }

  lemma EndedLineSize(x: SizeLine, end: string, utf8: seq<byte> -> Option<string>)
    requires WellFormed(x) && ReadsAscii(utf8)
    requires forall c <- end :: Text.White(c) && c < 128 as char
    ensures ChunkSize(ToBytes(Line(x) + end), utf8) ==
            if Declared(x) <= USIZE_MAX && (x.pad == "" || x.ext == "") then Ok(Declared(x)) else Err(BadChunkSize)
  {
    var text := Line(x) + end;
    LineIsAscii(x, end);
    assert utf8(ToBytes(text)) == Some(text);
    SizeText(x, end);
    if x.pad != "" && x.ext != "" {
      PaddedIsNoNumber(x.size, x.pad);
    } else {
      SpelledIsNumber(x);
      assert x.ext != "" ==> x.size + x.pad == x.size;
    }
  }

  /** A size line, in any spelling of its size, is read as its size, unless white space stands before an
      extension or the size overflows. */
  lemma LineSize(x: SizeLine, utf8: seq<byte> -> Option<string>)
    requires WellFormed(x) && ReadsAscii(utf8)
    ensures ChunkSize(ToBytes(Line(x)) + CRLF, utf8) ==
            if Declared(x) <= USIZE_MAX && (x.pad == "" || x.ext == "") then Ok(Declared(x)) else Err(BadChunkSize)
  {
    var end: string := ['\r', '\n'];
    EndedLineSize(x, end, utf8);
    BytesAndEnd(Line(x), end);
  }

  // ---- finding the end of a line ----

  lemma NoMark(done: seq<byte>)
    requires 13 !in done
    ensures !EndsWith(done, CRLF) && !EndsWith(done + [13], CRLF)
  {
    var one := done + [13];
    if |done| > 0 {
      assert done[|done| - 1] in done && one[|one| - 2..][0] == done[|done| - 1];
    }
    if |done| > 1 {
      assert done[|done| - 2] in done && done[|done| - 2..][0] == done[|done| - 2];
    }
  }

  /** One byte that does not complete the mark moves from the stream to the line. */
  lemma UntilStep(done: seq<byte>, b: byte, rest: seq<byte>)
    requires !EndsWith(done, CRLF) && |done| < 128
    ensures Until(done, [b] + rest, CRLF, 128, BadChunkHeader) == Until(done + [b], rest, CRLF, 128, BadChunkHeader)
  {
    var s := [b] + rest;
    assert s[0] == b && s[1..] == rest;
  }

  lemma UntilEnds(one: seq<byte>, tail: seq<byte>)
    requires one != [] && one[|one| - 1] == 13 && !EndsWith(one, CRLF)
    ensures Until(one, [10] + tail, CRLF, 128, BadChunkHeader) ==
            if |one| < 128 then Ok((one + [10], tail)) else Err(BadChunkHeader)
  {
    var two, s := one + [10], [10] + tail;
    assert two[|two| - 2..] == CRLF;
    assert s[0] == 10 && s[1..] == tail;
    assert Until(two, tail, CRLF, 128, BadChunkHeader) == Ok((two, tail));
  }

  lemma UntilTooLong(done: seq<byte>, s: seq<byte>)
    requires !EndsWith(done, CRLF) && |done| >= 128
    ensures Until(done, s, CRLF, 128, BadChunkHeader) == Err(BadChunkHeader)
  {
  }

  lemma UntilCrlf(done: seq<byte>, tail: seq<byte>)
    requires 13 !in done
    ensures Until(done, CRLF + tail, CRLF, 128, BadChunkHeader) ==
            if |done| <= 126 then Ok((done + CRLF, tail)) else Err(BadChunkHeader)
  {
    NoMark(done);
    if |done| < 128 {
      assert CRLF + tail == [13] + ([10] + tail);
      UntilStep(done, 13, [10] + tail);
      UntilEnds(done + [13], tail);
      assert done + [13] + [10] == done + CRLF;
    } else {
      UntilTooLong(done, CRLF + tail);
    }
  }

  /** What reading up to the end of a line should give. */
  ghost predicate Found(r: Decoded<seq<byte>>, line: seq<byte>, tail: seq<byte>) {
    r == if |line| <= 126 then Ok((line + CRLF, tail)) else Err(BadChunkHeader)
  }

  /** A line is found if it has at most 126 bytes before its end, and refused if it is longer. */
  lemma {:induction false} UntilFinds(done: seq<byte>, line: seq<byte>, tail: seq<byte>)
    requires 13 !in done && 13 !in line
    ensures Found(Until(done, line + (CRLF + tail), CRLF, 128, BadChunkHeader), done + line, tail)
    decreases |line|
  {
    if line == [] {
      UntilCrlf(done, tail);
      assert line + (CRLF + tail) == CRLF + tail && done + line == done;
    } else {
      var rest := line[1..] + (CRLF + tail);
      assert line + (CRLF + tail) == [line[0]] + rest;
      NoMark(done);
      if |done| < 128 {
        UntilStep(done, line[0], rest);
        UntilFinds(done + [line[0]], line[1..], tail);
        assert done + [line[0]] + line[1..] == done + line;
      } else {
        UntilTooLong(done, [line[0]] + rest);
      }
    }
  }

  // ---- the round trip ----

  datatype Piece = Piece(line: SizeLine, data: seq<byte>)

  /** The line is well formed and declares the size of the data, which is not empty. */
  predicate Piecewise(p: Piece) {
    WellFormed(p.line) && Declared(p.line) == |p.data| != 0
  }

  predicate Sendable(ps: seq<Piece>, last: SizeLine) {
    WellFormed(last) && Declared(last) == 0 && forall p <- ps :: Piecewise(p)
  }

  /** The chunks in turn, the last chunk, and whatever follows. */
  function Coded(ps: seq<Piece>, last: SizeLine, tail: seq<byte>): seq<byte> {
    if ps == [] then ToBytes(Line(last)) + CRLF + tail
    else ToBytes(Line(ps[0].line)) + CRLF + (ps[0].data + CRLF + Coded(ps[1..], last, tail))
  }

  function Joined(ps: seq<Piece>): seq<byte> {
    if ps == [] then [] else ps[0].data + Joined(ps[1..])
  }

  /** A size line the decoder takes: short enough, and no white space before an extension. */
  predicate Fits(x: SizeLine) {
    |Line(x)| <= 126 && (x.pad == "" || x.ext == "")
  }

  predicate AllFit(ps: seq<Piece>, last: SizeLine) {
    Fits(last) && forall p <- ps :: Fits(p.line)
  }

  lemma LineFree(x: SizeLine)
    requires WellFormed(x)
    ensures 13 !in ToBytes(Line(x))
  {
    var line := Line(x);
    SpelledChars(x.size);
    forall i | 0 <= i < |line|
      ensures ToBytes(line)[i] != 13
    {
      assert line[i] in line;
    }
  }

  lemma LineFound(x: SizeLine, rest: seq<byte>)
    requires WellFormed(x)
    ensures Until([], ToBytes(Line(x)) + CRLF + rest, CRLF, 128, BadChunkHeader) ==
            if |Line(x)| <= 126 then Ok((ToBytes(Line(x)) + CRLF, rest)) else Err(BadChunkHeader)
  {
    var line := ToBytes(Line(x));
    LineFree(x);
    assert [] + line == line && line + CRLF + rest == line + (CRLF + rest);
    UntilFinds([], line, rest);
  }

  function AfterLine(body: seq<byte>, n: nat, rest: seq<byte>, utf8: seq<byte> -> Option<string>): Decoded<seq<byte>>
    requires |body| <= MAX_BODY
  {
    if n == 0 then Ok((body, rest))
    else
      var c := Chunk(body, n, rest);
      if c.Err? then c else Chunks(c.value.0, c.value.1, utf8)
  }

  lemma ChunksBehindLine(
      body: seq<byte>, s: seq<byte>, line: seq<byte>, n: nat, rest: seq<byte>, utf8: seq<byte> -> Option<string>)
    requires |body| <= MAX_BODY
    requires Until([], s, CRLF, 128, BadChunkHeader) == Ok((line, rest)) && ChunkSize(line, utf8) == Ok(n)
    ensures Chunks(body, s, utf8) == AfterLine(body, n, rest, utf8)
  {
  }

  lemma ChunksRefuseLine(body: seq<byte>, s: seq<byte>, utf8: seq<byte> -> Option<string>)
    requires |body| <= MAX_BODY
    requires
      var line := Until([], s, CRLF, 128, BadChunkHeader);
      line.Err? || ChunkSize(line.value.0, utf8).Err?
    ensures Chunks(body, s, utf8).Err?
  {
  }

  lemma LineStep(body: seq<byte>, x: SizeLine, rest: seq<byte>, utf8: seq<byte> -> Option<string>)
    requires |body| <= MAX_BODY && WellFormed(x) && ReadsAscii(utf8)
    ensures
      var r := Chunks(body, ToBytes(Line(x)) + CRLF + rest, utf8);
      if Fits(x) && Declared(x) <= USIZE_MAX then r == AfterLine(body, Declared(x), rest, utf8) else r.Err?
  {
    var line := ToBytes(Line(x)) + CRLF;
    LineFound(x, rest);
    LineSize(x, utf8);
    if Fits(x) && Declared(x) <= USIZE_MAX {
      ChunksBehindLine(body, line + rest, line, Declared(x), rest, utf8);
    } else {
      ChunksRefuseLine(body, line + rest, utf8);
    }
  }

  lemma DataStep(body: seq<byte>, data: seq<byte>, rest: seq<byte>)
    requires |body| <= MAX_BODY
    ensures Chunk(body, |data|, data + CRLF + rest) ==
            if |body| + |data| <= MAX_BODY then Ok((body + data, rest)) else Err(TooLarge)
  {
    var s := data + CRLF + rest;
    assert s[..|data|] == data && s[|data|..|data| + 2] == CRLF && s[|data| + 2..] == rest;
  }

  lemma PieceStep(body: seq<byte>, p: Piece, rest: seq<byte>, utf8: seq<byte> -> Option<string>)
    requires |body| <= MAX_BODY && Piecewise(p) && ReadsAscii(utf8)
    ensures
      var r := Chunks(body, ToBytes(Line(p.line)) + CRLF + (p.data + CRLF + rest), utf8);
      if Fits(p.line) && |body| + |p.data| <= MAX_BODY then r == Chunks(body + p.data, rest, utf8) else r.Err?
  {
    LineStep(body, p.line, p.data + CRLF + rest, utf8);
    DataStep(body, p.data, rest);
  }

  lemma FitSplit(ps: seq<Piece>, last: SizeLine)
    requires ps != []
    ensures AllFit(ps, last) <==> Fits(ps[0].line) && AllFit(ps[1..], last)
    ensures Sendable(ps, last) ==> Piecewise(ps[0]) && Sendable(ps[1..], last)
  {
    assert ps == [ps[0]] + ps[1..];
  }

  /** What decoding should give: the body with the pieces behind it, or a refusal. */
  ghost predicate Right(r: Decoded<seq<byte>>, fit: bool, body: seq<byte>, data: seq<byte>, tail: seq<byte>) {
    if fit && |body| + |data| <= MAX_BODY then r == Ok((body + data, tail)) else r.Err?
  }

  lemma RightMore(r: Decoded<seq<byte>>, fit: bool, body: seq<byte>, first: seq<byte>, data: seq<byte>, tail: seq<byte>)
    requires Right(r, fit, body + first, data, tail)
    ensures Right(r, fit, body, first + data, tail)
  {
    assert body + first + data == body + (first + data);
  }

  lemma DecodesLast(body: seq<byte>, last: SizeLine, tail: seq<byte>, utf8: seq<byte> -> Option<string>)
    requires |body| <= MAX_BODY && WellFormed(last) && Declared(last) == 0 && ReadsAscii(utf8)
    ensures Right(Chunks(body, Coded([], last, tail), utf8), AllFit([], last), body, Joined([]), tail)
  {
    LineStep(body, last, tail, utf8);
    assert body + [] == body;
  }

  lemma {:induction false} DecodesFrom(
      body: seq<byte>, ps: seq<Piece>, last: SizeLine, tail: seq<byte>, utf8: seq<byte> -> Option<string>)
    requires |body| <= MAX_BODY && Sendable(ps, last) && ReadsAscii(utf8)
    ensures Right(Chunks(body, Coded(ps, last, tail), utf8), AllFit(ps, last), body, Joined(ps), tail)
    decreases |ps|
  {
    if ps == [] {
      DecodesLast(body, last, tail, utf8);
    } else {
      var p, rest := ps[0], Coded(ps[1..], last, tail);
      FitSplit(ps, last);
      PieceStep(body, p, rest, utf8);
      if |body| + |p.data| <= MAX_BODY {
        DecodesFrom(body + p.data, ps[1..], last, tail, utf8);
        RightMore(Chunks(body + p.data, rest, utf8), AllFit(ps[1..], last), body, p.data, Joined(ps[1..]), tail);
      }
    }
  }

  /** Decoding the chunked coding of any chunk list, with its sizes in any spelling, gives its concatenation
      exactly when that is within the body limit and every size line fits; every other list is refused. */
  lemma DecodesConcatenation(ps: seq<Piece>, last: SizeLine, tail: seq<byte>, utf8: seq<byte> -> Option<string>)
    requires Sendable(ps, last) && ReadsAscii(utf8)
    ensures
      var r := Chunks([], Coded(ps, last, tail), utf8);
      if AllFit(ps, last) && |Joined(ps)| <= MAX_BODY then r == Ok((Joined(ps), tail)) else r.Err?
  {
    DecodesFrom([], ps, last, tail, utf8);
    assert [] + Joined(ps) == Joined(ps);
  }

  /** Section 7.1.1 of RFC 9112 lets white space stand before an extension; the decoder refuses every body
      with such a line. */
  lemma PaddedExtensionRefused(ps: seq<Piece>, last: SizeLine, i: nat, tail: seq<byte>, utf8: seq<byte> -> Option<string>)
    requires Sendable(ps, last) && ReadsAscii(utf8)
    requires i < |ps| && ps[i].line.pad != "" && ps[i].line.ext != ""
    ensures Chunks([], Coded(ps, last, tail), utf8).Err?
  {
    assert ps[i] in ps && !Fits(ps[i].line);
    DecodesConcatenation(ps, last, tail, utf8);
  }

  /** Such lines exist for every size. */
  lemma PaddedLineExists(n: nat)
    ensures
      var x := SizeLine(Hex(n), [' '], [';', 'x']);
      WellFormed(x) && Declared(x) == n
  {
    HexSpells(n);
  }
}
