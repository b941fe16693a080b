/** The text of an HTTP response head: the status line and the two fields that frame the body. */
module HttpHead {
  import opened Prelude
  import Text

  const MAX_BODY := 65536
  const USIZE_MAX := 0xFFFF_FFFF_FFFF_FFFF

  datatype Error =
    | Closed | BadGreeting | Rejected | BadAddressType
    | HeadersTooLarge | NotText | BadStatus | BadCode
    | DuplicateLength | BadLength | TooLarge | UnsupportedEncoding | Ambiguous
    | BadChunkHeader | BadChunkSize | BadChunkEnd

  // ---- numbers ----

  /** The value of a digit in bases up to 16. */
  function Digit(c: char, radix: nat): (d: Option<nat>)
    ensures d.Some? ==> d.value < radix
  {
    var n := c as int;
    var v := if '0' <= c <= '9' then n - 48
             else if 'a' <= c <= 'f' then n - 87
             else if 'A' <= c <= 'F' then n - 55
             else radix;
    if v < radix then Some(v) else None
  }

  function Digits(s: string, radix: nat): Option<nat> {
    if s == "" then Some(0)
    else
      var high, d := Digits(s[..|s| - 1], radix), Digit(s[|s| - 1], radix);
      if high.None? || d.None? then None else Some(high.value * radix + d.value)
  }

  /** An unsigned number of some base: one optional plus sign, at least one digit, no overflow. */
  function Number(s: string, radix: nat, max: nat): Option<nat> {
    var digits := if |s| > 1 && s[0] == '+' then s[1..] else s;
    if digits == "" then None
    else
      var n := Digits(digits, radix);
      if n.None? || n.value > max then None else n
  }

  // ---- header fields ----

  datatype Field = Length(value: Option<nat>) | Encoding(chunked: bool) | Other

  function Colon(line: string): (i: nat)
    ensures i <= |line|
    ensures i < |line| ==> line[i] == ':'
    ensures forall j :: 0 <= j < i ==> line[j] != ':'
  {
    if line == "" || line[0] == ':' then 0
    else
      var i := Colon(line[1..]);
      assert forall j :: 0 < j < i + 1 ==> line[j] == line[1..][j - 1];
      1 + i
  }

  function Classify(line: string): Field {
    var i := Colon(line);
    if i == |line| then Other
    else
      var key, value := Text.Lower(line[..i]), Text.Trim(line[i + 1..]);
      if key == "content-length" then Length(Number(value, 10, USIZE_MAX))
      else if key == "transfer-encoding" then Encoding(Text.Lower(value) == "chunked")
      else Other
  }

  function Classified(lines: seq<string>): (r: seq<Field>)
    ensures |r| == |lines|
  {
    if lines == [] then [] else [Classify(lines[0])] + Classified(lines[1..])
  }

  /** What the fields seen so far say: the declared length and whether the body is chunked. */
  datatype Framing = Framing(length: Option<nat>, chunked: bool)

  function AddField(f: Framing, field: Field): Result<Framing, Error> {
    match field
    case Length(value) =>
      if f.length.Some? then Err(DuplicateLength)
      else if value.None? then Err(BadLength)
      else if value.value > MAX_BODY then Err(TooLarge)
      else Ok(f.(length := value))
    case Encoding(chunked) => if chunked then Ok(f.(chunked := true)) else Err(UnsupportedEncoding)
    case Other => Ok(f)
  }

  predicate Bounded(f: Framing) {
    f.length.Some? ==> f.length.value <= MAX_BODY
  }

  function Frames(f: Framing, fields: seq<Field>): (r: Result<Framing, Error>)
    ensures r.Ok? && Bounded(f) ==> Bounded(r.value)
    decreases |fields|
  {
    if fields == [] then Ok(f)
    else
      var next := AddField(f, fields[0]);
      if next.Err? then next else Frames(next.value, fields[1..])
  }

  const NO_FRAMING := Framing(None, false)

  predicate Acceptable(field: Field) {
    match field
    case Length(value) => value.Some? && value.value <= MAX_BODY
    case Encoding(chunked) => chunked
    case Other => true
  }

  predicate Consistent(fields: seq<Field>) {
    && (forall i :: 0 <= i < |fields| ==> Acceptable(fields[i]))
    && (forall i, j :: 0 <= i < j < |fields| ==> !(fields[i].Length? && fields[j].Length?))
  }

  lemma ConsistentSplit(fields: seq<Field>)
    requires fields != []
    ensures Consistent(fields) <==>
            && Acceptable(fields[0])
            && Consistent(fields[1..])
            && (fields[0].Length? ==> forall field <- fields[1..] :: !field.Length?)
  {
    var rest := fields[1..];
    assert forall i :: 0 < i < |fields| ==> fields[i] == rest[i - 1];
    assert forall i :: 0 <= i < |rest| ==> rest[i] == fields[i + 1];
  }

  lemma {:induction false} FramesFrom(f: Framing, fields: seq<Field>)
    ensures
      var r := Frames(f, fields);
      && (r.Ok? <==> Consistent(fields) && (f.length.Some? ==> forall field <- fields :: !field.Length?))
      && (r.Ok? ==>
            && (forall n: nat :: r.value.length == Some(n) <==> f.length == Some(n) || Length(Some(n)) in fields)
            && (r.value.chunked <==> f.chunked || Encoding(true) in fields))
    decreases |fields|
  {
    if fields != [] {
      ConsistentSplit(fields);
      assert fields == [fields[0]] + fields[1..];
      var next := AddField(f, fields[0]);
      if next.Ok? {
        FramesFrom(next.value, fields[1..]);
      }
    }
  }

  /** Fields are accepted exactly when each is acceptable and no two declare a length; the framing
      then names the one declared length, and the body is chunked when any field says so. */
  lemma FramingMeaning(fields: seq<Field>)
    ensures
      var r := Frames(NO_FRAMING, fields);
      && (r.Ok? <==> Consistent(fields))
      && (r.Ok? ==>
            && (forall n: nat :: r.value.length == Some(n) <==> Length(Some(n)) in fields)
            && (r.value.chunked <==> Encoding(true) in fields))
  {
    FramesFrom(NO_FRAMING, fields);
  }

  /** The field loop of the source. */
  method ReadFields(lines: seq<string>) returns (r: Result<Framing, Error>)
    ensures r == Frames(NO_FRAMING, Classified(lines))
  {
    var length: Option<nat>, chunked := None, false;
    for i := 0 to |lines|
      invariant Frames(Framing(length, chunked), Classified(lines[i..])) == Frames(NO_FRAMING, Classified(lines))
    {
      assert lines[i..][1..] == lines[i + 1..];
      var field := Classify(lines[i]);
      assert Classified(lines[i..])[0] == field && Classified(lines[i..])[1..] == Classified(lines[i + 1..]);
      if field.Length? {
        if length.Some? {
          return Err(DuplicateLength);
        }
        if field.value.None? {
          return Err(BadLength);
        }
        if field.value.value > MAX_BODY {
          return Err(TooLarge);
        }
        length := field.value;
      }
      if field.Encoding? {
        if !field.chunked {
          return Err(UnsupportedEncoding);
        }
        chunked := true;
      }
    }
    assert lines[|lines|..] == [];
    r := Ok(Framing(length, chunked));
  }

  // ---- the head ----

  function Lines(s: string): (r: seq<string>)
    ensures |r| > 0
  {
    if s == "" then [""]
    else if |s| > 1 && s[0] == '\r' && s[1] == '\n' then [""] + Lines(s[2..])
    else
      var rest := Lines(s[1..]);
      [[s[0]] + rest[0]] + rest[1..]
  }

  function Word(s: string): (r: string)
    ensures |r| <= |s| && (s != "" && !Text.White(s[0]) ==> r != "")
  {
    if s == "" || Text.White(s[0]) then "" else [s[0]] + Word(s[1..])
  }

  /** `str::split_whitespace`. */
  function Words(s: string): seq<string>
    decreases |s|
  {
    var t := Text.TrimStart(s);
    if t == "" then [] else [Word(t)] + Words(t[|Word(t)|..])
  }

  datatype Body = Empty | Chunked | Sized(size: nat) | UntilClose

  function BodyOf(f: Framing): Result<Body, Error> {
    if f.chunked then if f.length.Some? then Err(Ambiguous) else Ok(Chunked)
    else if f.length.Some? then Ok(Sized(f.length.value))
    else Ok(UntilClose)
  }

  predicate KnownVersion(word: string) {
    word == "HTTP/1.0" || word == "HTTP/1.1"
  }

  function Status(line: string): Result<nat, Error> {
    var words := Words(line);
    if words == [] || !KnownVersion(words[0]) then Err(BadStatus)
    else
      var code := Number(if |words| > 1 then words[1] else "", 10, 65535);
      if code.None? then Err(BadCode) else Ok(code.value)
  }

  /** The status code and how the body is framed. */
  function Head(text: string): (r: Result<(nat, Body), Error>)
    ensures r.Ok? && r.value.1.Sized? ==> r.value.1.size <= MAX_BODY
  {
    var lines := Lines(text);
    var code := Status(lines[0]);
    if code.Err? then Err(code.error)
    else if code.value == 204 then Ok((204, Empty))
    else
      var f := Frames(NO_FRAMING, Classified(lines[1..]));
      if f.Err? then Err(f.error)
      else
        var body := BodyOf(f.value);
        if body.Err? then Err(body.error) else Ok((code.value, body.value))
  }

  method ReadHead(text: string) returns (r: Result<(nat, Body), Error>)
    ensures r == Head(text)
  {
    var lines := Lines(text);
    var code := Status(lines[0]);
    if code.Err? {
      return Err(code.error);
    }
    if code.value == 204 {
      return Ok((204, Empty));
    }
    var f := ReadFields(lines[1..]);
    if f.Err? {
      return Err(f.error);
    }
    var body := BodyOf(f.value);
    r := if body.Err? then Err(body.error) else Ok((code.value, body.value));
  }

  /** A response other than 204 is accepted exactly when its fields are consistent and do not both
      declare a length and say chunked; a declared length never exceeds the limit. */
  lemma HeadMeaning(text: string)
    ensures
      var lines, r := Lines(text), Head(text);
      var fields := Classified(lines[1..]);
      Status(lines[0]).Ok? && Status(lines[0]).value != 204 ==>
        && (r.Ok? <==> Consistent(fields) && !(Encoding(true) in fields && exists field <- fields :: field.Length?))
        && (r.Ok? ==>
              && r.value.0 == Status(lines[0]).value
              && (r.value.1 == Chunked <==> Encoding(true) in fields)
              && (forall n: nat :: r.value.1 == Sized(n) <==> Length(Some(n)) in fields))
  {
    var fields := Classified(Lines(text)[1..]);
    FramingMeaning(fields);
    var f := Frames(NO_FRAMING, fields);
    if Consistent(fields) {
      assert f.value.length.Some? <==> exists field <- fields :: field.Length? by {
        forall i | 0 <= i < |fields| && fields[i].Length?
          ensures f.value.length.Some?
        {
          assert Acceptable(fields[i]);
          assert Length(Some(fields[i].value.value)) in fields;
        }
        if f.value.length.Some? {
          assert Length(Some(f.value.length.value)) in fields;
        }
      }
    }
  }
}
