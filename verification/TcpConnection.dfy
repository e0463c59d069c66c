/** The write loop of a connection over its channel, and whole deliveries made of many such calls. */
module TcpConnection {
  import opened Common
  import opened Channel

  /** The answers up to the first error. */
  function Willing(answers: seq<int>): (a: seq<nat>)
    ensures |a| <= |answers| && forall i :: 0 <= i < |a| ==> a[i] == answers[i]
    ensures |a| < |answers| ==> answers[|a|] < 0
  {
    if answers == [] || answers[0] < 0 then [] else [answers[0]] + Willing(answers[1..])
  }

  /** What is left to send after these answers. */
  function Remaining(a: seq<nat>, left: Pieces): Pieces {
    if a == [] then left else Remaining(a[1..], left.Without(a[0]))
  }

  /** What has gone out of `s` when `left` is left of it. */
  function Out(s: seq<Byte>, left: Pieces): seq<Byte> {
    if left.Size() <= |s| then s[..|s| - left.Size()] else []
  }

  class TcpConnection {
    const channel: Channel

    constructor (channelType: ChannelType)
      ensures fresh(channel) && channel.channelType == channelType && channel.Valid()
      ensures channel.Payload() == [] && channel.emitted == []
    {
      channel := new Channel(channelType);
    }

    /** Completion is flagged by the count of bytes that remain, which a raw file without headers never gets. */
    ghost predicate Counts()
      reads channel
    {
      channel.channelType.Raw? ==> channel.Framed()
    }

    /**
     `write`: goes on until an error or completion. `answers` are the kernel's; when
     they run out it says EAGAIN. Every answer before that is used, and the payload is
     reset only once every byte of it is out, exactly once and in order; otherwise it is
     kept for the next call. Only a raw file without headers is dropped after whatever
     the first answer takes of it.
     */
    method Write(answers: seq<int>) returns (n: int, completed: bool)
      requires channel.Valid()
      requires channel.Unsent() != [] || channel.Payload() == []
      modifies channel
      ensures channel.Valid() && (n == 0 || n == -1)
      ensures old(Counts()) ==>
        var left, unsent := Remaining(Willing(answers), old(channel.Left())), old(channel.Unsent());
        && channel.emitted == old(channel.emitted) + Out(unsent, left)
        && (n == 0 <==> Willing(answers) != [] && left.Size() == 0)
        && (n == -1 ==> channel.Left() == left)
      ensures n == 0 ==> completed && channel.Payload() == [] && channel.start == |channel.emitted|
      ensures n == -1 ==>
        && Counts() == old(Counts()) && channel.Payload() == old(channel.Payload())
        && channel.start == old(channel.start)
        && (channel.Unsent() != [] || channel.Payload() == [])
        && channel.emitted + channel.Unsent() == old(channel.emitted + channel.Unsent())
      ensures !old(Counts()) ==>
        && (n == 0 <==> answers != [] && answers[0] >= 0)
        && (n == 0 ==> var left := old(channel.Unsent());
                       channel.emitted == old(channel.emitted) + left[..Min(answers[0], |left|)])
    {
      hide Channel.Payload;
      hide Channel.Valid;
      hide Channel.Framed;
      hide Channel.Unsent;
      hide Channel.Advanced;
      hide Channel.Left;
      hide Out;
      hide Remaining;
      hide Willing;
      hide Pieces.Without;
      channel.LeftSize();
      ghost var payload, total, counts := channel.Payload(), channel.emitted + channel.Unsent(), Counts();
      ghost var end := Remaining(Willing(answers), channel.Left());
      assert answers[0..] == answers;
      var i := 0;
      while true
        invariant 0 <= i <= |answers|
        invariant channel.Valid() && channel.Payload() == payload && Counts() == counts
        invariant channel.start == old(channel.start)
        invariant channel.Unsent() != [] || (payload == [] && i == 0)
        invariant old(channel.emitted) <= channel.emitted && channel.emitted + channel.Unsent() == total
        invariant Remaining(Willing(answers[i..]), channel.Left()) == end && (i > 0 ==> Willing(answers) != [])
        invariant !counts ==>
                    i == 0 && channel.emitted == old(channel.emitted) && channel.Unsent() == old(channel.Unsent())
        decreases |answers| - i
      {
        var k := if i < |answers| then answers[i] else -1;
        ghost var left := channel.Unsent();
        WillingTurn(answers, i, channel.Left());
        n, completed := channel.Write(k);
        channel.LeftSize();
        if n < 0 {
          Taken(old(channel.emitted), old(channel.Unsent()), channel.emitted, channel.Unsent(), channel.Left());
          n := -1;
          break;
        }
        if completed {
          if counts {
            NothingRemains(Willing(answers[i + 1..]), channel.Left());
            Taken(old(channel.emitted), old(channel.Unsent()), channel.emitted, channel.Unsent(), channel.Left());
          } else {
            FirstTaken(old(channel.emitted), left, channel.emitted, n);
          }
          n := 0;
          channel.Reset();
          break;
        }
        i := i + 1;
      }
    }
  }

  /** The answer at `i`, or where they run out. */
  lemma WillingTurn(answers: seq<int>, i: nat, left: Pieces)
    requires i <= |answers|
    ensures Remaining(Willing(answers[i..]), left) ==
            if i == |answers| || answers[i] < 0 then left
            else Remaining(Willing(answers[i + 1..]), left.Without(answers[i]))
    ensures i < |answers| && answers[i] >= 0 ==> Willing(answers[i..]) != []
    ensures i == |answers| || answers[i] < 0 ==> Willing(answers[i..]) == []
  {
    if i < |answers| {
      assert answers[i..][1..] == answers[i + 1..];
    }
  }

  lemma {:induction false} NothingRemains(a: seq<nat>, left: Pieces)
    requires left.Size() == 0
    ensures Remaining(a, left) == left
  {
    if a != [] {
      NothingRemains(a[1..], left);
    }
  }

  /** What has gone from what was unsent is what has been emitted. */
  lemma Taken(before: seq<Byte>, unsent: seq<Byte>, after: seq<Byte>, left: seq<Byte>, pieces: Pieces)
    requires before <= after && after + left == before + unsent && |left| == pieces.Size()
    ensures after == before + Out(unsent, pieces)
  {
    assert |after| + |left| == |before| + |unsent|;
    assert after == (after + left)[..|after|] == (before + unsent)[..|after|];
  }

  lemma FirstTaken(before: seq<Byte>, left: seq<Byte>, after: seq<Byte>, n: nat)
    requires before <= after && |after| == |before| + n && n <= |left| && after <= before + left
    ensures after == before + left[..n]
  {
  }

  // ---- when it is enough ----

  function Sum(a: seq<nat>): nat { if a == [] then 0 else a[0] + Sum(a[1..]) }

  lemma {:induction false} SumSplits(a: seq<nat>, b: seq<nat>)
    ensures Sum(a + b) == Sum(a) + Sum(b)
  {
    if a == [] {
      assert a + b == b;
    } else {
      assert (a + b)[1..] == a[1..] + b;
      SumSplits(a[1..], b);
    }
  }

  /** The answers add up to the first piece, and those behind that to the second. */
  ghost predicate Enough(a: seq<nat>, left: Pieces) {
    exists i :: 0 <= i <= |a| && Sum(a[..i]) >= left.first && Sum(a[i..]) >= left.second
  }

  /** Everything goes out exactly when the answers are enough. */
  lemma {:induction false} EnoughExactly(a: seq<nat>, left: Pieces)
    ensures Remaining(a, left).Size() == 0 <==> Enough(a, left)
  {
    hide Enough;
    if a == [] {
      NothingIsEnough(left);
    } else if left.first == 0 {
      OnePiece(a, left.second);
      EnoughLast(a, left.second);
    } else {
      EnoughExactly(a[1..], left.Without(a[0]));
      EnoughTurn(a, left);
    }
  }

  lemma NothingIsEnough(left: Pieces)
    ensures Enough([], left) <==> left.Size() == 0
  {
    assert Sum([]) == 0;
    var none: seq<nat> := [];
    assert none[..0] == none && none[0..] == none;
  }

  lemma EnoughLast(a: seq<nat>, size: nat)
    ensures Enough(a, Pieces(0, size)) <==> Sum(a) >= size
  {
    assert a[..0] == [] && a[0..] == a;
    forall i | 0 <= i <= |a| && Sum(a[i..]) >= size
      ensures Sum(a) >= size
    {
      assert a == a[..i] + a[i..];
      SumSplits(a[..i], a[i..]);
    }
  }

  lemma EnoughTurn(a: seq<nat>, left: Pieces)
    requires a != [] && left.first > 0
    ensures Enough(a, left) <==> Enough(a[1..], left.Without(a[0]))
  {
    var b, rest := a[1..], left.Without(a[0]);
    if Enough(a, left) {
      var i :| 0 <= i <= |a| && Sum(a[..i]) >= left.first && Sum(a[i..]) >= left.second;
      assert i > 0 by {
        assert a[..0] == [];
      }
      assert a[..i][1..] == b[..i - 1] && a[i..] == b[i - 1..];
    }
    if Enough(b, rest) {
      var i :| 0 <= i <= |b| && Sum(b[..i]) >= rest.first && Sum(b[i..]) >= rest.second;
      assert a[..i + 1][1..] == b[..i] && a[i + 1..] == b[i..];
    }
  }

  /** Of one piece, no answer is lost. */
  lemma {:induction false} OnePiece(a: seq<nat>, size: nat)
    ensures Remaining(a, Pieces(0, size)) == Pieces(0, if Sum(a) < size then size - Sum(a) else 0)
  {
    if a != [] {
      OnePiece(a[1..], size - Min(a[0], size));
    }
  }

  function Positives(a: seq<nat>): nat {
    if a == [] then 0 else (if a[0] > 0 then 1 else 0) + Positives(a[1..])
  }

  /** As many positive answers as there are bytes are always enough. */
  lemma {:induction false} PositivesSuffice(a: seq<nat>, left: Pieces)
    ensures Remaining(a, left).Size() == 0 || Remaining(a, left).Size() + Positives(a) <= left.Size()
  {
    if a != [] {
      PositivesSuffice(a[1..], left.Without(a[0]));
      if left.Size() == 0 {
        NothingRemains(a, left);
      }
    }
  }

  lemma {:induction false} RemainingSplits(a: seq<nat>, b: seq<nat>, left: Pieces)
    ensures Remaining(a + b, left) == Remaining(b, Remaining(a, left))
  {
    if a == [] {
      assert a + b == b;
    } else {
      assert (a + b)[1..] == a[1..] + b;
      RemainingSplits(a[1..], b, left.Without(a[0]));
    }
  }

  /** The answers that a number of calls use. */
  function Used(calls: seq<seq<int>>): seq<nat> {
    if calls == [] then [] else Willing(calls[0]) + Used(calls[1..])
  }

  lemma {:induction false} UsedMore(calls: seq<seq<int>>, n: nat)
    requires n < |calls|
    ensures Used(calls[..n + 1]) == Used(calls[..n]) + Willing(calls[n])
  {
    if n == 0 {
      assert calls[..1][1..] == [];
      assert Willing(calls[0]) + [] == [] + Willing(calls[0]);
    } else {
      assert calls[..n + 1][1..] == calls[1..][..n] && calls[..n][1..] == calls[1..][..n - 1];
      UsedMore(calls[1..], n - 1);
      assert Willing(calls[0]) + (Used(calls[1..][..n - 1]) + Willing(calls[n]))
          == Willing(calls[0]) + Used(calls[1..][..n - 1]) + Willing(calls[n]);
    }
  }

  /**
   A whole delivery: the payload is loaded once and written over any number of
   calls, each cut short by any pattern of partial writes and errors. What has been
   emitted is always a prefix of buffer ++ file, as long as the answers used say; it is
   all of it exactly when they are enough, however they are spread over the calls.
   */
  method Deliver(conn: TcpConnection, headers: seq<Byte>, file: seq<Byte>, useSendFile: bool, calls: seq<seq<int>>)
    returns (done: bool)
    requires conn.channel.Valid() && conn.channel.Payload() == []
    requires conn.channel.channelType.Ssl? ==> !useSendFile
    requires headers + file != [] && (conn.channel.channelType.Raw? ==> headers != [])
    modifies conn.channel
    ensures conn.channel.Valid()
    ensures var left := Parts(conn.channel.channelType, headers, file, useSendFile);
            && (done <==> Enough(Used(calls), left))
            && (Positives(Used(calls)) >= |headers + file| ==> done)
            && conn.channel.emitted == old(conn.channel.emitted)
                                       + Out(headers + file, Remaining(Used(calls), left))
    ensures old(conn.channel.emitted) <= conn.channel.emitted <= old(conn.channel.emitted) + headers + file
    ensures done <==> conn.channel.emitted == old(conn.channel.emitted) + headers + file
    ensures !done ==> conn.channel.Payload() == headers + file
  {
    hide Out;
    hide Remaining;
    hide Used;
    hide Willing;
    hide Enough;
    hide Positives;
    hide Going;
    hide Channel.Valid;
    hide Channel.Payload;
    hide Channel.Framed;
    hide Channel.Left;
    conn.channel.Load(headers, file, useSendFile);
    ghost var payload, before := headers + file, conn.channel.emitted;
    ghost var left := Parts(conn.channel.channelType, headers, file, useSendFile);
    ghost var parts := left;
    Begins(conn, before, payload);
    NothingUsed(calls, parts);
    done := false;
    var i := 0;
    while i < |calls| && !done
      invariant 0 <= i <= |calls| && left == Remaining(Used(calls[..i]), parts)
      invariant conn.channel.Valid() && conn.channel.emitted == before + Out(payload, left)
      invariant left.Size() <= |payload| && (done <==> left.Size() == 0)
      invariant !done ==> Going(conn, before, payload, left)
      decreases |calls| - i
    {
      UsedMore(calls, i);
      RemainingSplits(Used(calls[..i]), Willing(calls[i]), parts);
      done := Resume(conn, before, payload, left, calls[i]);
      left := Remaining(Willing(calls[i]), left);
      i := i + 1;
    }
    assert !done ==> conn.channel.Payload() == payload by {
      Still(conn, before, payload, left);
    }
    UsedRest(calls, i, parts);
    OutPart(before, headers, file, left);
    EnoughExactly(Used(calls), parts);
    PositivesSuffice(Used(calls), parts);
  }

  /** Between two calls of a delivery: `left` is left of the payload, and not nothing. */
  ghost predicate Going(conn: TcpConnection, before: seq<Byte>, payload: seq<Byte>, left: Pieces)
    reads conn.channel
  {
    && conn.channel.Valid() && conn.Counts() && conn.channel.Payload() == payload && conn.channel.Left() == left
    && 0 < left.Size() <= |payload| && conn.channel.emitted == before + Out(payload, left)
    && conn.channel.Unsent() == payload[|payload| - left.Size()..]
  }

  lemma Still(conn: TcpConnection, before: seq<Byte>, payload: seq<Byte>, left: Pieces)
    ensures Going(conn, before, payload, left) ==> conn.channel.Payload() == payload
  {
  }

  lemma Begins(conn: TcpConnection, before: seq<Byte>, payload: seq<Byte>)
    requires conn.channel.Valid() && conn.Counts() && conn.channel.Payload() == payload && payload != []
    requires conn.channel.emitted == before && conn.channel.sendBytes == 0
    ensures Going(conn, before, payload, conn.channel.Left()) && conn.channel.Left().Size() == |payload|
    ensures conn.channel.emitted == before + Out(payload, conn.channel.Left())
  {
    conn.channel.LeftSize();
    assert payload[0..] == payload && before + [] == before;
  }

  lemma NothingUsed(calls: seq<seq<int>>, parts: Pieces)
    ensures Remaining(Used(calls[..0]), parts) == parts
  {
  }

  /** One call of it. */
  method Resume(conn: TcpConnection, ghost before: seq<Byte>, ghost payload: seq<Byte>, ghost was: Pieces,
                answers: seq<int>)
    returns (done: bool)
    requires Going(conn, before, payload, was)
    modifies conn.channel
    ensures var left := Remaining(Willing(answers), was);
            && conn.channel.Valid() && conn.channel.emitted == before + Out(payload, left)
            && left.Size() <= |payload| && (done <==> left.Size() == 0)
            && (!done ==> Going(conn, before, payload, left))
  {
    hide Out;
    hide Remaining;
    hide Willing;
    hide Channel.Valid;
    hide Channel.Payload;
    hide Channel.Framed;
    hide Channel.Left;
    hide Channel.Unsent;
    ghost var left := Remaining(Willing(answers), was);
    RemainingFalls(Willing(answers), was);
    NothingWilling(was);
    OutMore(before, payload, was, left);
    OutAll(before, payload, was);
    var n, completed := conn.Write(answers);
    done := n == 0;
    if !done {
      OutLeaves(before, payload, left, conn.channel.Unsent());
    }
  }

  lemma NothingWilling(left: Pieces)
    ensures Remaining([], left) == left
  {
  }

  lemma {:induction false} RemainingFalls(a: seq<nat>, left: Pieces)
    ensures Remaining(a, left).Size() <= left.Size()
  {
    if a != [] {
      RemainingFalls(a[1..], left.Without(a[0]));
    }
  }

  lemma OutMore(before: seq<Byte>, payload: seq<Byte>, was: Pieces, left: Pieces)
    requires left.Size() <= was.Size() <= |payload|
    ensures before + Out(payload, was) + Out(payload[|payload| - was.Size()..], left) == before + Out(payload, left)
  {
    var from := |payload| - was.Size();
    assert payload[..from] + payload[from..][..was.Size() - left.Size()] == payload[..|payload| - left.Size()];
  }

  lemma OutAll(before: seq<Byte>, payload: seq<Byte>, left: Pieces)
    requires left.Size() <= |payload|
    ensures before + Out(payload, left) + payload[|payload| - left.Size()..] == before + payload
  {
    var from := |payload| - left.Size();
    assert payload[..from] + payload[from..] == payload;
  }

  lemma OutLeaves(before: seq<Byte>, payload: seq<Byte>, left: Pieces, unsent: seq<Byte>)
    requires left.Size() <= |payload| && before + Out(payload, left) + unsent == before + payload
    ensures unsent == payload[|payload| - left.Size()..]
  {
    var from := |payload| - left.Size();
    assert unsent == (before + payload)[|before| + from..];
  }

  lemma OutPart(before: seq<Byte>, headers: seq<Byte>, file: seq<Byte>, left: Pieces)
    requires left.Size() <= |headers + file|
    ensures var payload := headers + file;
            && before <= before + Out(payload, left) <= before + headers + file
            && (before + Out(payload, left) == before + headers + file <==> left.Size() == 0)
  {
    var payload := headers + file;
    assert before + headers + file == before + payload;
    assert |before + Out(payload, left)| == |before| + |payload| - left.Size();
  }

  /** Headers and file in the pieces in which they are offered. */
  function Parts(channelType: ChannelType, headers: seq<Byte>, file: seq<Byte>, useSendFile: bool): Pieces {
    if channelType.Raw? && !useSendFile && file != [] then Pieces(|headers + file|, 0) else Pieces(|headers|, |file|)
  }

  lemma Cut<T>(s: seq<T>, i: nat)
    requires i <= |s|
    ensures s[..i] + s[i..] == s && (i == |s| ==> s[..i] == s)
  {
  }

  /** When everything is out, further calls would add nothing. */
  lemma UsedRest(calls: seq<seq<int>>, i: nat, parts: Pieces)
    requires i <= |calls| && (i == |calls| || Remaining(Used(calls[..i]), parts).Size() == 0)
    ensures Remaining(Used(calls), parts) == Remaining(Used(calls[..i]), parts)
  {
    hide Used;
    hide Remaining;
    Cut(calls, i);
    if i < |calls| {
      UsedSplits(calls[..i], calls[i..]);
      RemainingSplits(Used(calls[..i]), Used(calls[i..]), parts);
      NothingRemains(Used(calls[i..]), Remaining(Used(calls[..i]), parts));
    }
  }

  lemma {:induction false} UsedSplits(a: seq<seq<int>>, b: seq<seq<int>>)
    ensures Used(a + b) == Used(a) + Used(b)
  {
    if a == [] {
      assert a + b == b;
    } else {
      assert (a + b)[1..] == a[1..] + b;
      UsedSplits(a[1..], b);
      assert Willing(a[0]) + (Used(a[1..]) + Used(b)) == Willing(a[0]) + Used(a[1..]) + Used(b);
    }
  }

  /**
   A raw file without headers, in whatever way it is sent and however long it is: the
   first answer takes what it takes, completion is flagged, and the rest is lost.
   */
  method UnframedFileIsLost(file: seq<Byte>, useSendFile: bool, k: int)
    returns (conn: TcpConnection, n: int, completed: bool)
    requires file != [] && k >= 0
    ensures n == 0 && completed && conn.channel.Payload() == []
    ensures conn.channel.emitted == file[..Min(k, |file|)]
  {
    conn := new TcpConnection(Raw);
    conn.channel.Load([], file, useSendFile);
    assert conn.channel.Unsent() == file;
    n, completed := conn.Write([k]);
  }
}
