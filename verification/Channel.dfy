/**
 Resumable output: a send buffer followed by a file, written in pieces as large
 as the kernel happens to take. The kernel is an oracle: a negative answer is an
 error, any other answer is the number of bytes it is willing to take.
 */
module Channel {
  import opened Common

  datatype ChannelType = Raw | Ssl

  function Min(a: int, b: int): int { if a <= b then a else b }

  /** What is still to send: `first` is offered until it is gone, and then `second`. */
  datatype Pieces = Pieces(first: nat, second: nat) {
    function Size(): nat { first + second }

    function Offered(): nat { if first > 0 then first else second }

    /** After a call in which the kernel is willing to take `k` bytes. */
    function Without(k: nat): Pieces {
      if first > 0 then Pieces(if k < first then first - k else 0, second)
      else Pieces(0, if k < second then second - k else 0)
    }
  }

  /** What a write call returns when asked to send `asked` bytes. */
  function Answer(k: int, asked: nat): (n: int)
    ensures n <= asked && (n < 0 <==> k < 0)
  {
    if k < 0 then -1 else Min(k, asked)
  }

  /** The pieces of a payload of `total` bytes, of which `front` go first, behind the first `from`. */
  function PiecesFrom(front: nat, total: nat, from: nat): Pieces
    requires front <= total && from <= total
  {
    if from < front then Pieces(front - from, total - front) else Pieces(0, total - from)
  }

  /** After a call that took `n` bytes, or failed. */
  lemma PiecesGo(front: nat, total: nat, from: nat, k: int, n: int)
    requires front <= total && from <= total
    requires n == Answer(k, PiecesFrom(front, total, from).Offered())
    ensures n < 0 <==> k < 0
    ensures n >= 0 ==>
      from + n <= total && PiecesFrom(front, total, from + n) == PiecesFrom(front, total, from).Without(k)
    ensures front == 0 || front == total ==> n == Answer(k, total - from)
  {
    if from < front {
      assert PiecesFrom(front, total, from) == Pieces(front - from, total - front);
    } else {
      assert PiecesFrom(front, total, from) == Pieces(0, total - from);
    }
  }

  datatype Counters = Counters(sendBytes: int, remainBytes: int, wsendBytes: int, fileOffset: nat)

  /** What the counters are between two calls, for a send buffer of `buffered` of the `total` bytes. */
  predicate Counted(channelType: ChannelType, mapped: bool, framed: bool, buffered: nat, total: nat, c: Counters) {
    && (channelType.Raw? && !mapped ==> c.fileOffset == if c.sendBytes <= buffered then 0 else c.sendBytes - buffered)
    && (framed && c.sendBytes > 0 ==> c.remainBytes == total - c.sendBytes)
    && (framed && c.sendBytes == 0 ==> c.remainBytes == 0 || c.remainBytes == total)
    && (channelType.Raw? && !framed ==> c.remainBytes == -c.sendBytes)
    && (channelType.Ssl? && total == 0 ==> c.wsendBytes == c.remainBytes == 0)
  }

  /** Making the remaining count ready for a raw call. */
  lemma RawCounted(mapped: bool, framed: bool, buffered: nat, total: nat, c: Counters)
    requires Counted(Raw, mapped, framed, buffered, total, c) && 0 <= c.sendBytes <= total
    ensures var ready := if framed then total - c.sendBytes else -c.sendBytes;
            && Counted(Raw, mapped, framed, buffered, total, c.(remainBytes := ready))
            && (buffered <= c.sendBytes && (framed ==> buffered > 0 || total == 0) ==> c.remainBytes == ready)
            && (!mapped ==> c.fileOffset == if c.sendBytes <= buffered then 0 else c.sendBytes - buffered)
  {
  }

  /** What is left of `sender + file`. */
  lemma PayloadFrom(sender: seq<Byte>, file: seq<Byte>, from: nat)
    requires from <= |sender| + |file|
    ensures var left := (sender + file)[from..];
            if from < |sender| then left == sender[from..] + file && sender[from..] <= left
            else left == file[from - |sender|..]
  {
    if from < |sender| {
      assert (sender + file)[from..] == sender[from..] + file;
    }
  }

  /** A raw call that took `n` bytes, or failed, from counters made ready by `RawNext`. */
  lemma RawCounts(mapped: bool, framed: bool, buffered: nat, total: nat, c: Counters, fromFile: bool, n: int)
    requires Counted(Raw, mapped, framed, buffered, total, c)
    requires c.remainBytes == if framed then total - c.sendBytes else -c.sendBytes
    requires fromFile ==> buffered <= c.sendBytes && !mapped
    requires !fromFile && !mapped && n > 0 ==> c.sendBytes + n <= buffered
    ensures n >= 0 ==>
      Counted(Raw, mapped, framed, buffered, total,
              Counters(c.sendBytes + n, c.remainBytes - n, c.wsendBytes, c.fileOffset + if fromFile then n else 0))
  {
  }

  /** An SSL call likewise. */
  lemma SslCounts(mapped: bool, framed: bool, buffered: nat, total: nat, c: Counters, n: int)
    requires 0 <= n <= total - c.sendBytes && 0 <= c.sendBytes && c.remainBytes == total - c.sendBytes
    requires n > 0 || c.sendBytes > 0 || total == 0 || c.remainBytes == total
    requires total == 0 ==> c.wsendBytes == 0
    ensures Counted(Ssl, mapped, framed, buffered, total,
                    Counters(c.sendBytes + n, c.remainBytes - n, c.wsendBytes, c.fileOffset))
  {
  }

  /** `RawChannel` and `SslChannel`, told apart by `channelType`. */
  class Channel {
    const channelType: ChannelType
    /** The readable part of `sender_`. */
    var sender: seq<Byte>
    /** The mapped file; empty when there is none or mapping it failed. */
    var mmap: seq<Byte>
    /** The file behind `sendfile()`, and the kernel's offset in it. */
    var sfile: seq<Byte>
    var fileOffset: nat
    var sendBytes: int
    var remainBytes: int
    var wsendBytes: int
    /** Every byte the kernel has taken, and how many of them before the last reset. */
    ghost var emitted: seq<Byte>
    ghost var start: nat

    constructor (channelType: ChannelType)
      ensures this.channelType == channelType && emitted == [] && start == 0
      ensures Valid() && Payload() == []
    {
      this.channelType := channelType;
      sender, mmap, sfile, fileOffset := [], [], [], 0;
      sendBytes, remainBytes, wsendBytes := 0, 0, 0;
      emitted, start := [], 0;
    }

    ghost function File(): seq<Byte>
      reads this`mmap, this`sfile
    {
      if mmap != [] || channelType.Ssl? then mmap else sfile
    }

    /** All there is to send. */
    ghost function Payload(): seq<Byte>
      reads this`sender, this`mmap, this`sfile
    {
      sender + File()
    }

    /** What is still to send. */
    ghost function Unsent(): seq<Byte>
      reads this`sender, this`mmap, this`sfile, this`sendBytes
      requires 0 <= sendBytes <= |Payload()|
    {
      Payload()[sendBytes..]
    }

    /** A file has something in the send buffer ahead of it, as HTTP headers always are. */
    ghost predicate Framed()
      reads this`sender, this`mmap, this`sfile
    {
      sender != [] || File() == []
    }

    /** The buffer is offered before the file, but with a file mapped, `writev` offers both at once. */
    ghost function Front(): (n: nat)
      reads this`sender, this`mmap, this`sfile
      ensures n <= |Payload()|
    {
      if channelType.Raw? && mmap != [] then |Payload()| else |sender|
    }

    /** The pieces in which the rest is offered. */
    ghost function Left(): (left: Pieces)
      reads this`sender, this`mmap, this`sfile, this`sendBytes
      requires 0 <= sendBytes <= |Payload()|
    {
      PiecesFrom(Front(), |Payload()|, sendBytes)
    }

    ghost predicate Valid()
      reads this
      ensures Valid() ==> 0 <= sendBytes <= |Payload()|
    {
      && 0 <= sendBytes <= |Payload()| && start <= |emitted|
      && emitted[start..] == Payload()[..sendBytes]
      && Counted(channelType, mmap != [], Framed(), |sender|, |Payload()|,
                 Counters(sendBytes, remainBytes, wsendBytes, fileOffset))
    }

    /** `n` more bytes of the payload have gone out, in order; nothing else changed. */
    twostate predicate Advanced(n: int)
      reads this
    {
      && sender == old(sender) && mmap == old(mmap) && sfile == old(sfile) && start == old(start)
      && (n < 0 ==> sendBytes == old(sendBytes) && emitted == old(emitted))
      && (n >= 0 ==> sendBytes == old(sendBytes) + n
                     && 0 <= old(sendBytes) <= sendBytes <= |old(Payload())|
                     && emitted == old(emitted) + old(Payload())[old(sendBytes)..sendBytes])
    }

    /** `writev` and `SSL_write`: the kernel takes the first bytes of `iov`, as many as it likes. */
    method Writev(k: int, iov: seq<Byte>) returns (n: int)
      requires start <= |emitted|
      modifies this`emitted
      ensures n == Answer(k, |iov|)
      ensures if n < 0 then emitted == old(emitted) else emitted == old(emitted) + iov[..n]
    {
      n := Answer(k, |iov|);
      if n >= 0 {
        emitted := emitted + iov[..n];
      }
    }

    /** `sendfile` asks for the whole size every time, from the offset the kernel keeps. */
    method SendFile(k: int) returns (n: int)
      requires start <= |emitted| && fileOffset <= |sfile|
      modifies this`emitted, this`fileOffset
      ensures n == Answer(k, |sfile| - old(fileOffset)) && fileOffset == old(fileOffset) + (if n < 0 then 0 else n)
      ensures if n < 0 then emitted == old(emitted) else emitted == old(emitted) + sfile[old(fileOffset)..][..n]
    {
      n := Answer(k, Min(|sfile|, |sfile| - fileOffset));
      if n >= 0 {
        emitted := emitted + sfile[fileOffset..][..n];
        fileOffset := fileOffset + n;
      }
    }

    /** What to send next: the rest of the buffer with the mapped file, or the rest of a file. */
    method RawNext() returns (iov: seq<Byte>, sendfileFlag: bool, ghost next: seq<Byte>)
      requires Valid() && channelType.Raw?
      modifies this`remainBytes
      ensures sendfileFlag <==> sendBytes >= |sender| && mmap == [] && sfile != []
      ensures next <= Payload()[sendBytes..] && |next| == old(Left()).Offered()
      ensures if sendfileFlag then fileOffset <= |sfile| && next == sfile[fileOffset..] else next == iov
      ensures !sendfileFlag && mmap == [] ==> sendBytes + |iov| <= |sender|
      ensures remainBytes == if Framed() then |Payload()| - sendBytes else -sendBytes
      ensures Valid()
    {
      hide Counted;
      RawCounted(mmap != [], Framed(), |sender|, |Payload()|,
                 Counters(sendBytes, remainBytes, wsendBytes, fileOffset));
      PayloadFrom(sender, File(), sendBytes);
      iov, sendfileFlag := [], false;
      if sendBytes < |sender| {
        iov := sender[sendBytes..];
        remainBytes := |iov|;
        if mmap != [] {
          iov := iov + mmap;
          remainBytes := remainBytes + |mmap|;
        } else if sfile != [] {
          remainBytes := remainBytes + |sfile|;
        }
      } else if mmap != [] {
        iov := mmap[sendBytes - |sender|..];
      } else if sfile != [] {
        sendfileFlag := true;
      }
      next := if sendfileFlag then sfile[fileOffset..] else iov;
    }

    method RawCall(k: int, iov: seq<Byte>, sendfileFlag: bool, ghost next: seq<Byte>) returns (n: int)
      requires start <= |emitted|
      requires if sendfileFlag then fileOffset <= |sfile| && next == sfile[fileOffset..] else next == iov
      modifies this`emitted, this`fileOffset
      ensures n == Answer(k, |next|)
      ensures if n < 0 then emitted == old(emitted) else emitted == old(emitted) + next[..n]
      ensures fileOffset == old(fileOffset) + (if n < 0 || !sendfileFlag then 0 else n)
    {
      if sendfileFlag {
        n := SendFile(k);
      } else {
        n := Writev(k, iov);
      }
    }

    /**
     `RawChannel::write`. It flags completion exactly when all is sent, provided
     the payload is framed; a file on its own is always flagged complete at once.
     */
    method RawWrite(k: int) returns (n: int, cflag: bool)
      requires Valid() && channelType.Raw?
      modifies this
      ensures Valid() && Advanced(n) && n == Answer(k, old(Left()).Offered())
      ensures cflag <==> sendBytes == |Payload()| || !Framed()
    {
      hide Counted;
      hide Payload;
      hide Framed;
      hide Channel.Left;
      ghost var payload, from, before := Payload(), sendBytes, emitted;
      var iov, sendfileFlag, next := RawNext();
      ghost var c := Counters(sendBytes, remainBytes, wsendBytes, fileOffset);
      n := RawCall(k, iov, sendfileFlag, next);
      RawCounts(mmap != [], Framed(), |sender|, |payload|, c, sendfileFlag, n);
      if n >= 0 {
        Extend(before, start, payload, from, next, n);
        sendBytes := sendBytes + n;
        remainBytes := remainBytes - n;
      }
      cflag := remainBytes <= 0;
    }

    /** The next address, with `wsendBytes` bytes to send from it. */
    method SslNext() returns (address: seq<Byte>)
      requires Valid() && channelType.Ssl? && (sendBytes < |Payload()| || Payload() == [] || mmap != [])
      modifies this`remainBytes, this`wsendBytes
      ensures address <= Payload()[sendBytes..] && wsendBytes == |address| == old(Left()).Offered()
      ensures remainBytes == |Payload()| - sendBytes
    {
      address := [];
      if sendBytes < |sender| {
        address := sender[sendBytes..];
        wsendBytes := |sender| - sendBytes;
        remainBytes := wsendBytes;
        if mmap != [] {
          remainBytes := remainBytes + |mmap|;
        }
      } else if mmap != [] {
        address := mmap[sendBytes - |sender|..];
        remainBytes := |mmap| - sendBytes + |sender|;
        wsendBytes := remainBytes;
      }
    }

    /**
     `SslChannel::write`: the buffer first, then the mapped file, never both in one
     call. Here the count is always fresh, and completion needs no framing. With
     everything sent, no file mapped and no reset the code passes a null address.
     */
    method SslWrite(k: int) returns (n: int, cflag: bool)
      requires Valid() && channelType.Ssl? && (sendBytes < |Payload()| || Payload() == [] || mmap != [])
      modifies this
      ensures Valid() && Advanced(n) && n == Answer(k, old(Left()).Offered())
      ensures cflag <==> sendBytes == |Payload()|
    {
      hide Counted;
      hide Payload;
      hide Framed;
      ghost var payload, from, before := Payload(), sendBytes, emitted;
      hide Channel.Left;
      ghost var offered := Left().Offered();
      var address := SslNext();
      assert address[..wsendBytes] == address;
      n := Writev(k, address[..wsendBytes]);
      ghost var c := Counters(sendBytes, remainBytes, wsendBytes, fileOffset);
      ghost var taken := if n < 0 then 0 else n;
      SslCounts(mmap != [], Framed(), |sender|, |payload|, c, taken);
      if n >= 0 {
        Extend(before, start, payload, from, address, n);
        sendBytes := sendBytes + n;
        remainBytes := remainBytes - n;
      }
      cflag := remainBytes <= 0;
      assert emitted[start..] == payload[..sendBytes];
    }

    method Write(k: int) returns (n: int, cflag: bool)
      requires Valid() && (channelType.Ssl? ==> Unsent() != [] || Payload() == [] || mmap != [])
      modifies this
      ensures Valid() && Advanced(n) && n == Answer(k, old(Left()).Offered())
      ensures cflag <==> Unsent() == [] || (channelType.Raw? && !Framed())
      ensures Left() == if n < 0 then old(Left()) else old(Left()).Without(k)
      ensures channelType.Raw? && !Framed() ==> n == Answer(k, old(|Unsent()|))
      ensures old(emitted) <= emitted && emitted + Unsent() == old(emitted + Unsent())
      ensures |emitted| == |old(emitted)| + if n < 0 then 0 else n
      ensures Payload() == old(Payload()) && Framed() == old(Framed()) && start == old(start)
    {
      hide PiecesFrom;
      hide Counted;
      hide Answer;
      hide Channel.Payload;
      hide Channel.Framed;
      hide Channel.Front;
      hide Channel.Valid;
      ghost var payload, from, before, left := Payload(), sendBytes, emitted, Left();
      OneFront();
      PiecesGo(Front(), |payload|, from, k, Answer(k, left.Offered()));
      if channelType.Raw? {
        n, cflag := RawWrite(k);
      } else {
        n, cflag := SslWrite(k);
      }
      Moves(before, payload, from, sendBytes, n);
    }

    lemma LeftSize()
      requires 0 <= sendBytes <= |Payload()|
      ensures Left().Size() == |Unsent()|
    {
    }

    lemma OneFront()
      ensures !Framed() ==> Front() == 0 || Front() == |Payload()|
    {
    }

    /** `Channel::reset`: counters, buffers and files go. */
    method Reset()
      requires Valid()
      modifies this
      ensures Valid() && Payload() == [] && emitted == old(emitted) && start == |emitted|
    {
      sendBytes, wsendBytes, remainBytes := 0, 0, 0;
      sender := [];
      mmap, sfile, fileOffset := [], [], 0;
      start := |emitted|;
    }

    /** A response is built into an idle channel: headers and body, then perhaps a file. */
    method Load(headers: seq<Byte>, file: seq<Byte>, useSendFile: bool)
      requires Valid() && Payload() == []
      requires channelType.Ssl? ==> !useSendFile
      modifies this
      ensures Valid() && Payload() == headers + file && sendBytes == 0
      ensures Left() == if channelType.Raw? && !useSendFile && file != [] then Pieces(|headers + file|, 0)
                        else Pieces(|headers|, |file|)
      ensures emitted == old(emitted) && start == |emitted|
      ensures Framed() <==> headers != [] || file == []
    {
      Reset();
      sender := headers;
      if useSendFile {
        sfile := file;
      } else {
        mmap := file;
      }
    }
  }

  /** The next `n` bytes of the payload go out behind the first `from`. */
  lemma Extend(emitted: seq<Byte>, start: nat, payload: seq<Byte>, from: nat, iov: seq<Byte>, n: nat)
    requires start <= |emitted| && from <= |payload| && emitted[start..] == payload[..from]
    requires iov <= payload[from..] && n <= |iov|
    ensures from + n <= |payload| && iov[..n] == payload[from..from + n]
    ensures (emitted + iov[..n])[start..] == payload[..from + n]
  {
    assert (emitted + iov[..n])[start..] == emitted[start..] + iov[..n];
    assert payload[..from] + payload[from..][..n] == payload[..from + n];
    assert iov[..n] == payload[from..][..n];
  }

  /** Bytes move from what is unsent to what is emitted, `n` of them unless that says that none did. */
  lemma Moves(before: seq<Byte>, payload: seq<Byte>, from: nat, to: nat, n: int)
    requires from <= |payload| && to == from + if n < 0 then 0 else n
    requires to <= |payload|
    ensures var after := before + payload[from..to];
            && before <= after && after + payload[to..] == before + payload[from..]
            && |after| == |before| + (if n < 0 then 0 else n) && (n < 0 ==> after == before)
  {
    assert payload[from..to] + payload[to..] == payload[from..];
  }
}
