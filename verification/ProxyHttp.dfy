/** A diagnostic request through the daemon's SOCKS port: decoding what the server sends back. */
module ProxyHttp {
  import opened Prelude
  import opened HttpHead
  import Text

  const CRLF: seq<byte> := [13, 10]
  const BLANK_LINE: seq<byte> := [13, 10, 13, 10]

  // ---- reference: decoders on the whole stream ----

  /** A decoded value and the bytes behind it. */
  type Decoded<T> = Result<(T, seq<byte>), Error>

  function Exact(s: seq<byte>, n: nat): Decoded<seq<byte>> {
    if n <= |s| then Ok((s[..n], s[n..])) else Err(Closed)
  }

  predicate EndsWith(s: seq<byte>, mark: seq<byte>) {
    |mark| <= |s| && s[|s| - |mark|..] == mark
  }

  /** Bytes one at a time until the line ends with `mark`, at most `limit` of them. */
  function Until(line: seq<byte>, s: seq<byte>, mark: seq<byte>, limit: nat, tooLong: Error): (r: Decoded<seq<byte>>)
    decreases |s|
    ensures r.Ok? ==> |r.value.1| <= |s|
    ensures r.Ok? && !EndsWith(line, mark) ==> |r.value.1| < |s|
  {
    if EndsWith(line, mark) then Ok((line, s))
    else if |line| >= limit then Err(tooLong)
    else if s == [] then Err(Closed)
    else Until(line + [s[0]], s[1..], mark, limit, tooLong)
  }

  /** The SOCKS method choice and connect reply, up to the end of the bound address. */
  function Socks(s: seq<byte>): Decoded<()> {
    var greeting := Exact(s, 2);
    if greeting.Err? then Err(Closed)
    else if greeting.value.0 != [5, 0] then Err(BadGreeting)
    else
      var reply := Exact(greeting.value.1, 4);
      if reply.Err? then Err(Closed)
      else if reply.value.0[..3] != [5, 0, 0] then Err(Rejected)
      else Address(reply.value.0[3], reply.value.1)
  }

  function Address(kind: byte, s: seq<byte>): Decoded<()> {
    if kind == 1 then Skip(s, 4 + 2)
    else if kind == 4 then Skip(s, 16 + 2)
    else if kind == 3 then
      if s == [] then Err(Closed)
      else
        var size: nat := s[0];
        Skip(s[1..], size + 2)
    else Err(BadAddressType)
  }

  function Skip(s: seq<byte>, n: nat): Decoded<()> {
    if n <= |s| then Ok(((), s[n..])) else Err(Closed)
  }

  /** The size a chunk line declares. */
  function ChunkSize(line: seq<byte>, utf8: seq<byte> -> Option<string>): Result<nat, Error> {
    var text := utf8(line);
    if text.None? then Err(NotText)
    else
      var n := Number(Text.Split(Text.Trim(text.value), {';'})[0], 16, USIZE_MAX);
      if n.None? then Err(BadChunkSize) else Ok(n.value)
  }

  /** One chunk behind its size line, added to the body. */
  function Chunk(body: seq<byte>, n: nat, s: seq<byte>): (r: Decoded<seq<byte>>)
    requires |body| <= MAX_BODY
    ensures r.Ok? ==> |r.value.0| <= MAX_BODY && |r.value.1| <= |s|
  {
    if n > MAX_BODY - |body| then Err(TooLarge)
    else if n + 2 > |s| then Err(Closed)
    else if s[n..n + 2] != CRLF then Err(BadChunkEnd)
    else Ok((body + s[..n], s[n + 2..]))
  }

  function Chunks(body: seq<byte>, s: seq<byte>, utf8: seq<byte> -> Option<string>): (r: Decoded<seq<byte>>)
    requires |body| <= MAX_BODY
    ensures r.Ok? ==> |r.value.0| <= MAX_BODY
    decreases |s|
  {
    var line := Until([], s, CRLF, 128, BadChunkHeader);
    if line.Err? then Err(line.error)
    else
      var n := ChunkSize(line.value.0, utf8);
      if n.Err? then Err(n.error)
      else if n.value == 0 then Ok((body, line.value.1))
      else
        var c := Chunk(body, n.value, line.value.1);
        if c.Err? then c else Chunks(c.value.0, c.value.1, utf8)
  }

  function Content(framing: Body, s: seq<byte>, utf8: seq<byte> -> Option<string>): (r: Result<seq<byte>, Error>)
    requires framing.Sized? ==> framing.size <= MAX_BODY
    ensures r.Ok? ==> |r.value| <= MAX_BODY
  {
    match framing
    case Empty => Ok([])
    case Chunked => var r := Chunks([], s, utf8); if r.Err? then Err(r.error) else Ok(r.value.0)
    case Sized(n) => if n <= |s| then Ok(s[..n]) else Err(Closed)
    case UntilClose => if |s| <= MAX_BODY then Ok(s) else Err(TooLarge)
  }

  /** The whole response as a function of the bytes the server sends. */
  function Decode(s: seq<byte>, utf8: seq<byte> -> Option<string>): (r: Result<(nat, seq<byte>), Error>)
    ensures r.Ok? ==> |r.value.1| <= MAX_BODY
  {
    var socks := Socks(s);
    if socks.Err? then Err(socks.error)
    else
      var headers := Until([], socks.value.1, BLANK_LINE, 16384, HeadersTooLarge);
      if headers.Err? then Err(headers.error)
      else if utf8(headers.value.0).None? then Err(NotText)
      else
        var head := Head(utf8(headers.value.0).value);
        if head.Err? then Err(head.error)
        else
          var body := Content(head.value.1, headers.value.1, utf8);
          if body.Err? then Err(body.error) else Ok((head.value.0, body.value))
  }

  // ---- the connection ----

  lemma MovedOver(body: seq<byte>, got: seq<byte>, rest: seq<byte>)
    requires got <= rest
    ensures body + rest == body + got + rest[|got|..]
    ensures rest == [] ==> body + rest == body
  {
  }

  class Connection {
    /** Everything the server sends before it closes. */
    const stream: seq<byte>
    /** How much the network has ready at each read. */
    const ready: nat -> nat
    var pos: nat
    var calls: nat

    constructor (stream: seq<byte>, ready: nat -> nat)
      ensures Valid() && this.stream == stream && this.ready == ready && Rest() == stream
    {
      this.stream, this.ready, pos, calls := stream, ready, 0, 0;
    }

    ghost predicate Valid()
      reads this
    {
      pos <= |stream|
    }

    ghost function Rest(): seq<byte>
      requires Valid()
      reads this
    {
      stream[pos..]
    }

    /** One socket read into a buffer of `n` bytes: any non-empty part of what is left, or nothing once
        the server has closed. */
    method Read(n: nat) returns (bytes: seq<byte>)
      requires Valid()
      modifies this`pos, this`calls
      ensures Valid() && bytes <= old(Rest()) && |bytes| <= n && Rest() == old(Rest())[|bytes|..]
      ensures bytes == [] <==> n == 0 || old(Rest()) == []
    {
      var most := Min(n, |stream| - pos);
      var k := if most == 0 then 0 else Min(most, ready(calls) + 1);
      calls := calls + 1;
      bytes := stream[pos..pos + k];
      pos := pos + k;
    }

    /** Fills a buffer of `n` bytes over as many reads as it takes. */
    method ReadExact(n: nat) returns (r: Result<seq<byte>, Error>)
      requires Valid()
      modifies this`pos, this`calls
      ensures Valid()
      ensures Exact(old(Rest()), n) == if r.Ok? then Ok((r.value, Rest())) else Err(r.error)
    {
      ghost var all := Rest();
      var bytes := [];
      while |bytes| < n
        invariant Valid() && |bytes| <= n && bytes <= all && Rest() == all[|bytes|..]
        decreases n - |bytes|
      {
        var got := Read(n - |bytes|);
        if got == [] {
          return Err(Closed);
        }
        bytes := bytes + got;
      }
      assert bytes == all[..n];
      r := Ok(bytes);
    }

    method ReadUntil(mark: seq<byte>, limit: nat, tooLong: Error) returns (r: Result<seq<byte>, Error>)
      requires Valid()
      modifies this`pos, this`calls
      ensures Valid()
      ensures Until([], old(Rest()), mark, limit, tooLong) == if r.Ok? then Ok((r.value, Rest())) else Err(r.error)
    {
      ghost var all := Rest();
      var line := [];
      while !EndsWith(line, mark)
        invariant Valid()
        invariant Until(line, Rest(), mark, limit, tooLong) == Until([], all, mark, limit, tooLong)
        decreases |stream| - pos
      {
        if |line| >= limit {
          return Err(tooLong);
        }
        ghost var rest := Rest();
        var b := ReadExact(1);
        if b.Err? {
          return Err(b.error);
        }
        assert b.value == [rest[0]];
        line := line + b.value;
      }
      r := Ok(line);
    }

    method ReadSocks() returns (r: Result<(), Error>)
      requires Valid()
      modifies this`pos, this`calls
      ensures Valid()
      ensures Socks(old(Rest())) == if r.Ok? then Ok(((), Rest())) else Err(r.error)
    {
      var greeting := ReadExact(2);
      if greeting.Err? {
        return Err(greeting.error);
      }
      if greeting.value != [5, 0] {
        return Err(BadGreeting);
      }
      var reply := ReadExact(4);
      if reply.Err? {
        return Err(reply.error);
      }
      if !(reply.value[0] == 5 && reply.value[1] == 0 && reply.value[2] == 0) {
        return Err(Rejected);
      }
      var size: nat;
      if reply.value[3] == 1 {
        size := 4;
      } else if reply.value[3] == 4 {
        size := 16;
      } else if reply.value[3] == 3 {
        var n := ReadExact(1);
        if n.Err? {
          return Err(n.error);
        }
        size := n.value[0];
      } else {
        return Err(BadAddressType);
      }
      var bound := ReadExact(size + 2);
      r := if bound.Err? then Err(bound.error) else Ok(());
    }

    method ReadChunks(utf8: seq<byte> -> Option<string>) returns (r: Result<seq<byte>, Error>)
      requires Valid()
      modifies this`pos, this`calls
      ensures Valid()
      ensures Chunks([], old(Rest()), utf8) == if r.Ok? then Ok((r.value, Rest())) else Err(r.error)
    {
      ghost var all := Rest();
      var body := [];
      while true
        invariant Valid() && |body| <= MAX_BODY
        invariant Chunks(body, Rest(), utf8) == Chunks([], all, utf8)
        decreases |stream| - pos
      {
        var line := ReadUntil(CRLF, 128, BadChunkHeader);
        if line.Err? {
          return Err(line.error);
        }
        var n := ChunkSize(line.value, utf8);
        if n.Err? {
          return Err(n.error);
        }
        if n.value == 0 {
          return Ok(body);
        }
        var c := ReadChunk(body, n.value);
        if c.Err? {
          return Err(c.error);
        }
        body := c.value;
      }
      assert false;
    }

    method ReadChunk(body: seq<byte>, n: nat) returns (r: Result<seq<byte>, Error>)
      requires Valid() && |body| <= MAX_BODY
      modifies this`pos, this`calls
      ensures Valid()
      ensures Chunk(body, n, old(Rest())) == if r.Ok? then Ok((r.value, Rest())) else Err(r.error)
    {
      if n > MAX_BODY - |body| {
        return Err(TooLarge);
      }
      var data := ReadExact(n);
      if data.Err? {
        return Err(data.error);
      }
      var end := ReadExact(2);
      if end.Err? {
        return Err(end.error);
      }
      if end.value != CRLF {
        return Err(BadChunkEnd);
      }
      r := Ok(body + data.value);
    }

    /** The body of a response that ends when the server closes, 4096 bytes at a time at most. */
    method ReadToClose() returns (r: Result<seq<byte>, Error>)
      requires Valid()
      modifies this`pos, this`calls
      ensures Valid()
      ensures r == if |old(Rest())| <= MAX_BODY then Ok(old(Rest())) else Err(TooLarge)
    {
      ghost var all := Rest();
      var body := [];
      while true
        invariant Valid() && |body| <= MAX_BODY && all == body + Rest()
        decreases |stream| - pos
      {
        ghost var rest := Rest();
        var got := Read(4096);
        MovedOver(body, got, rest);
        if got == [] {
          return Ok(body);
        }
        if |got| > MAX_BODY - |body| {
          return Err(TooLarge);
        }
        body := body + got;
      }
      assert false;
    }

    method ReadContent(framing: Body, utf8: seq<byte> -> Option<string>) returns (r: Result<seq<byte>, Error>)
      requires Valid() && (framing.Sized? ==> framing.size <= MAX_BODY)
      modifies this`pos, this`calls
      ensures Valid() && r == Content(framing, old(Rest()), utf8)
    {
      match framing
      case Empty => r := Ok([]);
      case Chunked => r := ReadChunks(utf8);
      case Sized(n) => r := ReadExact(n);
      case UntilClose => r := ReadToClose();
    }

    /** Whatever the network has ready at each read, the result is the same function of the stream,
        and the body stays within the limit. */
    method Get(utf8: seq<byte> -> Option<string>) returns (r: Result<(nat, seq<byte>), Error>)
      requires Valid()
      modifies this`pos, this`calls
      ensures r == Decode(old(Rest()), utf8)
    {
      var socks := ReadSocks();
      if socks.Err? {
        return Err(socks.error);
      }
      var headers := ReadUntil(BLANK_LINE, 16384, HeadersTooLarge);
      if headers.Err? {
        return Err(headers.error);
      }
      var text := utf8(headers.value);
      if text.None? {
        return Err(NotText);
      }
      var head := ReadHead(text.value);
      if head.Err? {
        return Err(head.error);
      }
      var body := ReadContent(head.value.1, utf8);
      r := if body.Err? then Err(body.error) else Ok((head.value.0, body.value));
    }
  }

  /** Two networks that deliver the same stream in different pieces give the same result. */
  method SameWhateverTheSplit(stream: seq<byte>, one: nat -> nat, other: nat -> nat, utf8: seq<byte> -> Option<string>)
    returns (r: Result<(nat, seq<byte>), Error>, q: Result<(nat, seq<byte>), Error>)
    ensures r == q == Decode(stream, utf8)
  {
    var a := new Connection(stream, one);
    var b := new Connection(stream, other);
    r := a.Get(utf8);
    q := b.Get(utf8);
  }
}
