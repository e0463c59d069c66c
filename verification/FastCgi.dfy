/**
 The FastCGI client: record headers, name-value bodies, and the loop that reads
 php-fpm's answer (sections 3.3 and 3.4 of the FastCGI Specification 1.0).
 */
module FastCgi {
  import opened Common
  import opened Buffer

  const END_REQUEST: Byte := 3
  const STDIN: Byte := 5
  const STDOUT: Byte := 6
  const STDERR: Byte := 7
  const HEADER_LEN := 8
  const BUFFER_SIZE := 2048

  /** `(unsigned char)n`. */
  function Low(n: nat): Byte { (n % 256) as Byte }

  // ---- record headers ----

  /** `makeHeader`; the request id is the object's own. */
  function MakeHeader(kind: Byte, id: nat, contentLen: nat, padding: nat): (h: seq<Byte>)
    ensures |h| == HEADER_LEN
  {
    [1, kind, Low(id / 256), Low(id), Low(contentLen / 256), Low(contentLen), Low(padding), 0]
  }

  /** `(contentLengthB1 << 8) + contentLengthB0`. */
  function ContentLength(h: seq<Byte>): nat
    requires |h| == HEADER_LEN
  {
    h[4] as nat * 256 + h[5] as nat
  }

  /** A header carries the length of its content exactly when that fits two bytes. */
  lemma ContentLengthExactly(kind: Byte, id: nat, contentLen: nat, padding: nat)
    ensures ContentLength(MakeHeader(kind, id, contentLen, padding)) == contentLen % 0x10000
    ensures ContentLength(MakeHeader(kind, id, contentLen, padding)) == contentLen <==> contentLen < 0x10000
  {
    var high := contentLen / 256;
    assert contentLen == (high / 256) * 0x10000 + high % 256 * 256 + contentLen % 256;
  }

  /** `(requestIdB1 << 8) + requestIdB0`. */
  function RequestId(h: seq<Byte>): nat
    requires |h| == HEADER_LEN
  {
    h[2] as nat * 256 + h[3] as nat
  }

  /** The other fields: version 1, the kind, the request id and the padding as far as they fit. */
  lemma HeaderCarries(kind: Byte, id: nat, contentLen: nat, padding: nat)
    ensures var h := MakeHeader(kind, id, contentLen, padding);
            && h[0] == 1 && h[1] == kind && h[7] == 0
            && RequestId(h) == id % 0x10000 && (RequestId(h) == id <==> id < 0x10000)
            && h[6] as nat == padding % 256 && (h[6] as nat == padding <==> padding < 256)
  {
    var high := id / 256;
    assert id == (high / 256) * 0x10000 + high % 256 * 256 + id % 256;
  }

  /** What `sendPost` writes. */
  function Post(id: nat, data: seq<Byte>): seq<Byte> {
    MakeHeader(STDIN, id, |data|, 0) + data + MakeHeader(STDIN, id, 0, 0)
  }

  /** How a server takes the record in front apart: its kind, its content, and what follows. */
  function TakeRecord(s: seq<Byte>): Option<(Byte, seq<Byte>, seq<Byte>)> {
    if |s| < HEADER_LEN then None
    else
      var n, padding := ContentLength(s[..HEADER_LEN]), s[6] as nat;
      if |s| < HEADER_LEN + n + padding then None
      else Some((s[1], s[HEADER_LEN..HEADER_LEN + n], s[HEADER_LEN + n + padding..]))
  }

  /**
   A post body is one record of standard input and an empty one behind it, exactly
   when it is shorter than 65536 bytes; a longer body is sent under a wrapped length.
   */
  lemma PostIsRead(id: nat, data: seq<Byte>)
    ensures var r := TakeRecord(Post(id, data));
            && r.Some? && r.value.0 == 5 && r.value.1 == data[..|data| % 0x10000]
            && (r.value.1 == data && TakeRecord(r.value.2) == Some((5, [], [])) <==> |data| < 0x10000)
  {
    var h, e := MakeHeader(STDIN, id, |data|, 0), MakeHeader(STDIN, id, 0, 0);
    var n := |data| % 0x10000;
    ContentLengthExactly(STDIN, id, |data|, 0);
    ContentLengthExactly(STDIN, id, 0, 0);
    var s := Post(id, data);
    assert s[..HEADER_LEN] == h;
    assert n <= |data|;
    assert s[HEADER_LEN..] == data + e;
    assert s[HEADER_LEN..HEADER_LEN + n] == data[..n];
    if |data| < 0x10000 {
      assert n == |data|;
      assert s[HEADER_LEN + n..] == e;
      assert e[..HEADER_LEN] == e;
    }
  }

  /** So of a body of 65536 bytes the record holds nothing. */
  lemma LongPostIsCut(id: nat)
    ensures var r := TakeRecord(Post(id, seq(0x10000, _ => 0)));
            r.Some? && r.value.0 == 5 && r.value.1 == []
  {
    PostIsRead(id, seq(0x10000, _ => 0));
  }

  // ---- name-value bodies ----

  /** `b | 0x80` on a byte. */
  function HighBit(b: Byte): Byte { if b < 128 then b + 128 else b }

  /** The length of a name or a value, in one byte or in four. */
  function Length(n: nat): (s: seq<Byte>)
    ensures |s| == if n < 128 then 1 else 4
  {
    if n < 128 then [Low(n)]
    else [HighBit(Low(n / 0x1000000)), Low(n / 0x10000), Low(n / 0x100), Low(n)]
  }

  /** What `makeNameValueBody` writes. */
  function NameValue(name: seq<Byte>, value: seq<Byte>): seq<Byte> {
    Length(|name|) + Length(|value|) + name + value
  }

  /** The length in front, as section 3.4 reads it, and what follows. */
  function TakeLength(s: seq<Byte>): Option<(nat, seq<Byte>)> {
    if |s| >= 1 && s[0] < 128 then Some((s[0] as nat, s[1..]))
    else if |s| >= 4 then
      Some((((s[0] as nat - 128) * 256 + s[1] as nat) * 0x10000 + s[2] as nat * 256 + s[3] as nat, s[4..]))
    else None
  }

  /** The pair in front and what follows. */
  function TakePair(s: seq<Byte>): Option<(seq<Byte>, seq<Byte>, seq<Byte>)> {
    var n := TakeLength(s);
    if n.None? then None
    else
      var v := TakeLength(n.value.1);
      if v.None? then None
      else
        var k, l, rest := n.value.0, v.value.0, v.value.1;
        if |rest| < k + l then None else Some((rest[..k], rest[k..k + l], rest[k + l..]))
  }

  /** A reader of pairs up to the end of the stream. */
  function TakePairs(s: seq<Byte>): Option<seq<(seq<Byte>, seq<Byte>)>>
    decreases |s|
  {
    if s == [] then Some([])
    else
      var p := TakePair(s);
      if p.None? || |p.value.2| >= |s| then None
      else
        var rest := TakePairs(p.value.2);
        if rest.None? then None else Some([(p.value.0, p.value.1)] + rest.value)
  }

  function Bodies(pairs: seq<(seq<Byte>, seq<Byte>)>): seq<Byte> {
    if pairs == [] then [] else NameValue(pairs[0].0, pairs[0].1) + Bodies(pairs[1..])
  }

  lemma FourBytes(n: nat)
    ensures var a, b, c, d := n / 0x1000000, n / 0x10000 % 256, n / 0x100 % 256, n % 256;
            n == (a * 256 + b) * 0x10000 + c * 256 + d
  {
    assert n / 0x100 == n / 0x10000 * 256 + n / 0x100 % 256;
    assert n / 0x10000 == n / 0x1000000 * 256 + n / 0x10000 % 256;
  }

  lemma LowBits(n: nat, q: nat, r: nat)
    requires n == q * 0x8000_0000 + r && r < 0x8000_0000
    ensures n % 0x8000_0000 == r
  {
  }

  lemma SevenBits(a: nat, q: nat, r: nat)
    requires a == q * 128 + r && r < 128
    ensures a % 128 == r && HighBit(Low(a)) as nat == r + 128
  {
    var b := a % 256;
    assert b == r || b == r + 128;
  }

  /** The upper byte keeps seven bits of all that is above bit 23. */
  lemma UpperByte(n: nat)
    ensures var a := n / 0x1000000;
            && n % 0x8000_0000 == a % 128 * 0x1000000 + n % 0x1000000
            && HighBit(Low(a)) as nat == a % 128 + 128
  {
    hide HighBit;
    hide Low;
    var a, low := n / 0x1000000, n % 0x1000000;
    var q, r := a / 128, a % 128;
    SevenBits(a, q, r);
    LowBits(n, q, r * 0x1000000 + low);
  }

  /** A length is read back exactly when it is below 2^31: the form has no room for a higher bit. */
  lemma LengthExactly(n: nat, rest: seq<Byte>)
    ensures TakeLength(Length(n) + rest) == Some((n % 0x8000_0000, rest))
    ensures TakeLength(Length(n) + rest) == Some((n, rest)) <==> n < 0x8000_0000
  {
    var s := Length(n) + rest;
    assert s[|Length(n)|..] == rest;
    if n >= 128 {
      FourBytes(n);
      UpperByte(n);
      assert n % 0x1000000 == n / 0x10000 % 256 * 0x10000 + n / 0x100 % 256 * 256 + n % 256;
      hide HighBit;
    }
  }

  lemma PairReads(name: seq<Byte>, value: seq<Byte>, rest: seq<Byte>)
    requires |name| < 0x8000_0000 && |value| < 0x8000_0000
    ensures TakePair(NameValue(name, value) + rest) == Some((name, value, rest))
  {
    hide TakeLength;
    hide Length;
    var data := name + value + rest;
    LengthExactly(|name|, Length(|value|) + data);
    LengthExactly(|value|, data);
    assert NameValue(name, value) + rest == Length(|name|) + (Length(|value|) + data);
    assert data[..|name|] == name && data[|name|..|name| + |value|] == value;
    assert data[|name| + |value|..] == rest;
  }

  /** The bodies of any pairs, one behind the other, are read back as those pairs and no others. */
  lemma {:induction false} BodiesRead(pairs: seq<(seq<Byte>, seq<Byte>)>)
    requires forall p :: p in pairs ==> |p.0| < 0x8000_0000 && |p.1| < 0x8000_0000
    ensures TakePairs(Bodies(pairs)) == Some(pairs)
  {
    hide TakePair;
    hide Length;
    if pairs != [] {
      var p := pairs[0];
      PairReads(p.0, p.1, Bodies(pairs[1..]));
      BodiesRead(pairs[1..]);
      assert pairs == [(p.0, p.1)] + pairs[1..];
    }
  }

  /** `makeNameValueBody`: writes one pair into the body buffer. */
  method MakeNameValueBody(name: seq<Byte>, value: seq<Byte>, body: array<Byte>) returns (bodyLen: nat)
    requires |NameValue(name, value)| <= body.Length
    modifies body
    ensures bodyLen == |NameValue(name, value)| && body[..bodyLen] == NameValue(name, value)
    ensures forall k :: bodyLen <= k < body.Length ==> body[k] == old(body[k])
  {
    hide Low;
    hide HighBit;
    bodyLen := PutLength(body, 0, |name|);
    bodyLen := PutLength(body, bodyLen, |value|);
    bodyLen := PutAll(body, bodyLen, name);
    bodyLen := PutAll(body, bodyLen, value);
  }

  method PutLength(body: array<Byte>, at: nat, n: nat) returns (next: nat)
    requires at + |Length(n)| <= body.Length
    modifies body
    ensures next == at + |Length(n)| && body[..next] == old(body[..at]) + Length(n)
    ensures forall k :: next <= k < body.Length ==> body[k] == old(body[k])
  {
    if n < 128 {
      body[at] := Low(n);
      next := at + 1;
    } else {
      body[at] := HighBit(Low(n / 0x1000000));
      body[at + 1] := Low(n / 0x10000);
      body[at + 2] := Low(n / 0x100);
      body[at + 3] := Low(n);
      next := at + 4;
    }
  }

  method PutAll(body: array<Byte>, at: nat, data: seq<Byte>) returns (next: nat)
    requires at + |data| <= body.Length
    modifies body
    ensures next == at + |data| && body[..next] == old(body[..at]) + data
    ensures forall k :: next <= k < body.Length ==> body[k] == old(body[k])
  {
    var i := 0;
    while i < |data|
      invariant 0 <= i <= |data|
      invariant body[..at + i] == old(body[..at]) + data[..i]
      invariant forall k :: at + i <= k < body.Length ==> body[k] == old(body[k])
    {
      body[at + i] := data[i];
      i := i + 1;
    }
    next := at + i;
  }

  // ---- the answer ----

  /** A record of the answer. The reader's buffers hold 8 bytes of padding and 2048 of an error text. */
  datatype Record =
    | Stdout(content: seq<Byte>, padding: seq<Byte>)
    | Stderr(content: seq<Byte>, padding: seq<Byte>)
    | EndRequest(body: seq<Byte>)
    | Other(kind: Byte)

  predicate Sendable(r: Record) {
    match r
    case Stdout(c, p) => |c| < 0x10000 && |p| <= 8
    case Stderr(c, p) => |c| <= 2048 && |p| <= 8
    case EndRequest(b) => |b| == 8
    case Other(k) => k != 3 && k != 6 && k != 7
  }

  function Kind(r: Record): Byte {
    match r
    case Stdout(_, _) => 6
    case Stderr(_, _) => 7
    case EndRequest(_) => 3
    case Other(k) => k
  }

  function Content(r: Record): seq<Byte> {
    if r.Other? then [] else if r.EndRequest? then r.body else r.content
  }

  function Padding(r: Record): seq<Byte> { if r.Stdout? || r.Stderr? then r.padding else [] }

  function Header(id: nat, r: Record): seq<Byte> { MakeHeader(Kind(r), id, |Content(r)|, |Padding(r)|) }

  function Wire(id: nat, r: Record): seq<Byte> { Header(id, r) + Content(r) + Padding(r) }

  function Stream(id: nat, rs: seq<Record>): seq<Byte> {
    if rs == [] then [] else Wire(id, rs[0]) + Stream(id, rs[1..])
  }

  /** All that went to standard output. */
  function Output(rs: seq<Record>): seq<Byte> {
    if rs == [] then [] else (if rs[0].Stdout? then rs[0].content else []) + Output(rs[1..])
  }

  predicate Failed(rs: seq<Record>) { exists r :: r in rs && r.Stderr? }

  /** The last error text, or `message` when there is none. */
  function LastError(rs: seq<Record>, message: seq<Byte>): seq<Byte> {
    if rs == [] then message
    else LastError(rs[1..], if rs[0].Stderr? then rs[0].content else message)
  }

  /** The socket: bytes that have not been read. */
  class Socket {
    var unread: seq<Byte>

    constructor (unread: seq<Byte>)
      ensures this.unread == unread
    {
      this.unread := unread;
    }

    /** A full `read`: as much as asked for, unless the stream ends. */
    method Read(buf: array<Byte>, n: nat) returns (ret: nat)
      requires n <= buf.Length
      modifies this, buf
      ensures ret == if n <= |old(unread)| then n else |old(unread)|
      ensures buf[..ret] == old(unread)[..ret] && unread == old(unread)[ret..]
    {
      ret := if n <= |unread| then n else |unread|;
      forall k | 0 <= k < ret {
        buf[k] := unread[k];
      }
      unread := unread[ret..];
    }
  }

  /** Reads bytes known to be in front. */
  method ReadKnown(sock: Socket, buf: array<Byte>, ghost data: seq<Byte>, n: nat, ghost rest: seq<Byte>)
    returns (ret: nat)
    requires sock.unread == data + rest && n == |data| <= buf.Length
    modifies sock, buf
    ensures ret == n && buf[..n] == data && sock.unread == rest
  {
    ret := sock.Read(buf, n);
  }

  /** The output of one record, in chunks of the size of the buffer. */
  method ReadStdout(sock: Socket, buffer: Buffer<Byte>, content: array<Byte>, contentLen: nat,
                    ghost data: seq<Byte>, ghost rest: seq<Byte>)
    requires buffer.Valid() && content != buffer.buffer && content.Length == BUFFER_SIZE
    requires sock.unread == data + rest && |data| == contentLen
    modifies sock, buffer, buffer.buffer, content
    ensures buffer.Valid() && (buffer.buffer == old(buffer.buffer) || fresh(buffer.buffer))
    ensures buffer.Contents() == old(buffer.Contents()) + data && sock.unread == rest
  {
    var nbuf, remain := contentLen / BUFFER_SIZE, contentLen % BUFFER_SIZE;
    ghost var left := data;
    ghost var b, before := buffer.buffer, buffer.Contents();
    while nbuf > 0
      invariant 0 <= nbuf && |left| == nbuf * BUFFER_SIZE + remain
      invariant buffer.Valid() && (buffer.buffer == b || fresh(buffer.buffer)) && content != buffer.buffer
      invariant sock.unread == left + rest && buffer.Contents() + left == before + data
    {
      ghost var chunk, more := left[..BUFFER_SIZE], left[BUFFER_SIZE..];
      assert left + rest == chunk + (more + rest);
      var ret := ReadKnown(sock, content, chunk, BUFFER_SIZE, more + rest);
      buffer.Append(content[..ret]);
      left, nbuf := more, nbuf - 1;
    }
    var ret := ReadKnown(sock, content, left, remain, rest);
    buffer.Append(content[..ret]);
  }

  lemma HeaderReads(id: nat, r: Record)
    requires Sendable(r)
    ensures var h := Header(id, r);
            && |h| == HEADER_LEN && h[1] == Kind(r)
            && ContentLength(h) == |Content(r)| && h[6] as nat == |Padding(r)| <= 8
    ensures (Kind(r) == STDOUT <==> r.Stdout?) && (Kind(r) == STDERR <==> r.Stderr?)
    ensures Kind(r) == END_REQUEST <==> r.EndRequest?
    ensures r.Stdout? || r.Stderr? ==> Content(r) == r.content
    ensures r.Stderr? ==> |Content(r)| <= BUFFER_SIZE
    ensures r.EndRequest? ==> |Content(r)| == 8
    ensures r.EndRequest? || r.Other? ==> Padding(r) == []
    ensures r.Other? ==> Content(r) == []
  {
    ContentLengthExactly(Kind(r), id, |Content(r)|, |Padding(r)|);
  }

  /** The record in front, and what reading it does to the results. */
  lemma RecordTurn(id: nat, rs: seq<Record>, k: nat, message: seq<Byte>)
    requires k < |rs|
    ensures var r := rs[k];
            && Stream(id, rs[k..]) == Header(id, r) + (Content(r) + (Padding(r) + Stream(id, rs[k + 1..])))
            && Output(rs[k..]) == (if r.Stdout? then r.content else []) + Output(rs[k + 1..])
            && LastError(rs[k..], message) == LastError(rs[k + 1..], if r.Stderr? then r.content else message)
            && (Failed(rs[..k + 1]) <==> Failed(rs[..k]) || r.Stderr?)
  {
    hide Header;
    hide Content;
    hide Padding;
    var r := rs[k];
    var more := Stream(id, rs[k + 1..]);
    assert rs[k..][1..] == rs[k + 1..];
    assert Header(id, r) + Content(r) + Padding(r) + more == Header(id, r) + (Content(r) + (Padding(r) + more));
    assert rs[..k + 1] == rs[..k] + [r];
  }

  /** What follows a header: the content of its record, and the padding. */
  method ReadBody(sock: Socket, buffer: Buffer<Byte>, header: array<Byte>, content: array<Byte>, tmp: array<Byte>,
                  wasFine: bool, lastMessage: seq<Byte>, ghost id: nat, ghost r: Record, ghost rest: seq<Byte>)
    returns (status: bool, message: seq<Byte>)
    requires buffer.Valid() && header != content && header != tmp && content != tmp
    requires buffer.buffer != header && buffer.buffer != content && buffer.buffer != tmp
    requires content.Length == BUFFER_SIZE && tmp.Length == 8
    requires Sendable(r) && header[..] == Header(id, r)
    requires sock.unread == Content(r) + (Padding(r) + rest)
    modifies sock, buffer, buffer.buffer, content, tmp
    ensures buffer.Valid() && (buffer.buffer == old(buffer.buffer) || fresh(buffer.buffer))
    ensures buffer.Contents() == old(buffer.Contents()) + if r.Stdout? then r.content else []
    ensures status == (wasFine && !r.Stderr?)
    ensures message == if r.Stderr? then r.content else lastMessage
    ensures sock.unread == rest
  {
    HeaderReads(id, r);
    hide Header;
    hide Content;
    hide Padding;
    hide Kind;
    hide Sendable;
    status, message := wasFine, lastMessage;
    ghost var behind := Padding(r) + rest;
    var padding := header[6];
    if header[1] == STDOUT {
      var contentLen := ContentLength(header[..]);
      hide ContentLength;
      ReadStdout(sock, buffer, content, contentLen, Content(r), behind);
      SkipPadding(sock, tmp, padding, Padding(r), rest);
    } else if header[1] == STDERR {
      var contentLen := ContentLength(header[..]);
      hide ContentLength;
      var ret := ReadKnown(sock, content, Content(r), contentLen, behind);
      status := false;
      message := content[..ret];
      SkipPadding(sock, tmp, padding, Padding(r), rest);
    } else if header[1] == END_REQUEST {
      var _ := ReadKnown(sock, tmp, Content(r), 8, behind);
    }
  }

  const OK: seq<Byte> := [79, 75]

  /**
   `readPhpFpm`: over any stream of records it appends exactly their output, fails
   when and only when there was an error record, and reports the last error text.
   */
  method ReadPhpFpm(sock: Socket, buffer: Buffer<Byte>, ghost id: nat, ghost records: seq<Record>)
    returns (status: bool, message: seq<Byte>)
    requires buffer.Valid() && sock.unread == Stream(id, records)
    requires forall r :: r in records ==> Sendable(r)
    modifies sock, buffer, buffer.buffer
    ensures buffer.Valid() && buffer.Contents() == old(buffer.Contents()) + Output(records)
    ensures status <==> !Failed(records)
    ensures message == LastError(records, ['O' as int as Byte, 'K' as int as Byte])
    ensures sock.unread == []
  {
    hide Header;
    hide Content;
    hide Padding;
    hide Stream;
    hide Output;
    hide LastError;
    hide Failed;
    hide Sendable;
    var header, content, tmp := new Byte[HEADER_LEN], new Byte[BUFFER_SIZE], new Byte[8];
    status, message := true, OK;
    ghost var k, before, b := 0, buffer.Contents(), buffer.buffer;
    assert records[0..] == records;
    NothingFailed();
    while true
      invariant k <= |records| && sock.unread == Stream(id, records[k..])
      invariant buffer.Valid() && (buffer.buffer == b || fresh(buffer.buffer))
      invariant content != buffer.buffer && header != buffer.buffer && tmp != buffer.buffer
      invariant buffer.Contents() + Output(records[k..]) == before + Output(records)
      invariant status <==> !Failed(records[..k])
      invariant LastError(records[k..], message) == LastError(records, OK)
      decreases |records| - k
    {
      if k == |records| {
        StreamEnds(id, records[k..], message);
        assert records[..k] == records;
      } else {
        RecordTurn(id, records, k, message);
        HeaderIsWhole(id, records[k]);
      }
      var ret := sock.Read(header, HEADER_LEN);
      if ret == 0 {
        break;
      }
      ghost var r, rest := records[k], Stream(id, records[k + 1..]);
      status, message := ReadBody(sock, buffer, header, content, tmp, status, message, id, r, rest);
      k := k + 1;
    }
  }

  lemma HeaderIsWhole(id: nat, r: Record)
    ensures |Header(id, r)| == HEADER_LEN
  {
  }

  lemma NothingFailed()
    ensures !Failed([])
  {
  }

  lemma StreamEnds(id: nat, rs: seq<Record>, message: seq<Byte>)
    requires rs == []
    ensures Stream(id, rs) == [] && Output(rs) == [] && LastError(rs, message) == message
  {
  }

  method SkipPadding(sock: Socket, tmp: array<Byte>, n: Byte, ghost padding: seq<Byte>, ghost rest: seq<Byte>)
    requires sock.unread == padding + rest && n as nat == |padding| <= tmp.Length
    modifies sock, tmp
    ensures sock.unread == rest
  {
    if n > 0 {
      var _ := ReadKnown(sock, tmp, padding, n as nat, rest);
    }
  }
}
