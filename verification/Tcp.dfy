/** The 8-byte big-endian length that precedes each message. */
module MessageLength {
  import opened Bytes

  function Pow256(k: nat): (p: nat)
    ensures p > 0
  {
    if k == 0 then 1 else 256 * Pow256(k - 1)
  }

  /** The low `k` bytes of `n`, most significant first. */
  function BigEndian(n: nat, k: nat): (b: seq<Byte>)
    ensures |b| == k
  {
    if k == 0 then [] else BigEndian(n / 256, k - 1) + [n % 256]
  }

  function Value(b: seq<Byte>): nat {
    if b == [] then 0 else 256 * Value(b[..|b| - 1]) + b[|b| - 1] as int
  }

  lemma {:induction false} ValueOfBigEndian(n: nat, k: nat)
    requires n < Pow256(k)
    ensures Value(BigEndian(n, k)) == n
  {
    if k > 0 {
      ValueOfBigEndian(n / 256, k - 1);
      assert BigEndian(n, k)[..k - 1] == BigEndian(n / 256, k - 1);
    }
  }

  lemma {:induction false} BigEndianOfValue(b: seq<Byte>)
    ensures BigEndian(Value(b), |b|) == b
  {
    if b != [] {
      BigEndianOfValue(b[..|b| - 1]);
      var v, d := Value(b[..|b| - 1]), b[|b| - 1] as int;
      assert (256 * v + d) / 256 == v && (256 * v + d) % 256 == d;
    }
  }

  lemma Pow256Eight()
    ensures Pow256(8) == U64
  {
    assert Pow256(4) == 0x1_0000_0000;
    assert Pow256(8) == 256 * (256 * (256 * (256 * Pow256(4))));
  }

  lemma DivDiv(n: nat, p: nat)
    requires p > 0
    ensures n / 256 / p == n / (256 * p)
  {
    var q, r := n / (256 * p), n % (256 * p);
    assert n == 256 * p * q + r;
    assert n == 256 * (p * q) + r;
    assert n / 256 == p * q + r / 256;
    assert r / 256 < p;
    DivisionIs(n / 256, p, q, r / 256);
  }

  lemma {:induction false} BigEndianAt(n: nat, k: nat, i: nat)
    requires i < k
    ensures BigEndian(n, k)[i] as int == n / Pow256(k - 1 - i) % 256
    decreases k
  {
    if i < k - 1 {
      BigEndianAt(n / 256, k - 1, i);
      DivDiv(n, Pow256(k - 2 - i));
    }
  }

  /** Byte i is the length shifted right by 56 - 8 i bits. */
  method EncodeMessageLength(length: nat) returns (buffer: array<Byte>)
    requires length < U64
    ensures fresh(buffer) && buffer[..] == BigEndian(length, 8)
  {
    buffer := new Byte[8];
    for i := 0 to 8
      invariant forall j :: 0 <= j < i ==> buffer[j] == BigEndian(length, 8)[j]
    {
      BigEndianAt(length, 8, i);
      buffer[i] := length / Pow256(7 - i) % 256;
    }
  }

  lemma ShiftIn(v: nat, d: nat, i: nat)
    requires i < 8
    ensures v * Pow256(8 - i) + d * Pow256(7 - i) == (256 * v + d) * Pow256(7 - i)
  {
  }

  /** The bytes occupy disjoint bits, so joining them by OR is adding them. */
  method ExtractMessageLength(buffer: seq<Byte>) returns (length: nat)
    requires |buffer| == 8
    ensures length == Value(buffer) && length < U64
  {
    length := 0;
    for i := 0 to 8
      invariant length == Value(buffer[..i]) * Pow256(8 - i)
    {
      ShiftIn(Value(buffer[..i]), buffer[i], i);
      assert buffer[..i + 1][..i] == buffer[..i];
      length := length + buffer[i] * Pow256(7 - i);
    }
    assert buffer[..8] == buffer;
    ValueBound(buffer);
    Pow256Eight();
  }

  lemma {:induction false} ValueBound(b: seq<Byte>)
    ensures Value(b) < Pow256(|b|)
  {
    if b != [] {
      ValueBound(b[..|b| - 1]);
    }
  }
}

/** Stream sockets that send and receive partially, driven by scripts of results. */
module StreamSocket {
  import opened Bytes

  /** The buffers that are left after the first `sent` bytes have gone out. A buffer that is only
      partly sent is shortened; one that is sent exactly is dropped. */
  function Advance<T>(buffers: seq<seq<T>>, sent: nat): (r: seq<seq<T>>)
    requires sent <= |Concat(buffers)|
    decreases |buffers|
  {
    if sent == 0 then buffers
    else
      ConcatHead(buffers);
      if |buffers[0]| > sent then [buffers[0][sent..]] + buffers[1..]
      else Advance(buffers[1..], sent - |buffers[0]|)
  }

  lemma ConcatHead<T>(ss: seq<seq<T>>)
    ensures ss != [] ==> Concat(ss) == ss[0] + Concat(ss[1..])
  {
    if ss != [] {
      ConcatCons(ss[0], ss[1..]);
      assert [ss[0]] + ss[1..] == ss;
    }
  }

  lemma {:induction false} AdvanceDropsSent<T>(buffers: seq<seq<T>>, sent: nat)
    requires sent <= |Concat(buffers)|
    ensures Concat(Advance(buffers, sent)) == Concat(buffers)[sent..]
    decreases |buffers|
  {
    if sent > 0 {
      ConcatHead(buffers);
      if |buffers[0]| > sent {
        ConcatCons(buffers[0][sent..], buffers[1..]);
      } else {
        AdvanceDropsSent(buffers[1..], sent - |buffers[0]|);
      }
    }
  }

  predicate EndsNonEmpty<T>(buffers: seq<seq<T>>) {
    buffers != [] && |buffers[|buffers| - 1]| > 0
  }

  /** Trailing buffers stay: an empty last buffer is never passed, and a non-empty one is passed
      exactly when everything has been sent. */
  lemma {:induction false} AdvanceEnd<T>(buffers: seq<seq<T>>, sent: nat)
    requires buffers != [] && sent <= |Concat(buffers)|
    ensures !EndsNonEmpty(buffers) ==> Advance(buffers, sent) != [] && !EndsNonEmpty(Advance(buffers, sent))
    ensures EndsNonEmpty(buffers) ==>
              (Advance(buffers, sent) == [] <==> sent == |Concat(buffers)|) &&
              (Advance(buffers, sent) != [] ==> EndsNonEmpty(Advance(buffers, sent)))
    decreases |buffers|
  {
    ConcatHead(buffers);
    LastInConcat(buffers);
    if sent > 0 && |buffers[0]| <= sent {
      if |buffers| > 1 {
        AdvanceEnd(buffers[1..], sent - |buffers[0]|);
      }
    }
  }

  lemma LastInConcat<T>(ss: seq<seq<T>>)
    requires ss != []
    ensures |Concat(ss)| >= |ss[|ss| - 1]|
  {
  }

  ghost predicate AllPositive(s: seq<int>) {
    forall i :: 0 <= i < |s| ==> s[i] > 0
  }

  class Socket {
    var wire: seq<Byte>         // bytes accepted for sending
    var sends: seq<int>         // how much each send takes; negative is an error
    var incoming: seq<Byte>     // bytes sent by the peer and not yet received
    var receives: seq<int>      // how much each receive yields; negative is an error

    constructor (sends: seq<int>, incoming: seq<Byte>, receives: seq<int>)
      ensures wire == [] && this.sends == sends && this.incoming == incoming && this.receives == receives
    {
      this.wire, this.sends, this.incoming, this.receives := [], sends, incoming, receives;
    }

    /** One gathering send; -1 on error, otherwise how many bytes went out. */
    method SendBuffers(buffers: seq<seq<Byte>>) returns (sent: int)
      modifies this`wire, this`sends
      ensures old(sends) == [] || old(sends)[0] < 0 ==> sent == -1 && wire == old(wire)
      ensures old(sends) != [] && old(sends)[0] >= 0 ==>
                && sent == Min(old(sends)[0], |Concat(buffers)|)
                && wire == old(wire) + Concat(buffers)[..sent]
      ensures sends == if old(sends) == [] then [] else old(sends)[1..]
    {
      var n := if sends == [] then -1 else sends[0];
      sends := if sends == [] then [] else sends[1..];
      if n < 0 { return -1; }
      sent := Min(n, |Concat(buffers)|);
      wire := wire + Concat(buffers)[..sent];
    }

    /** Sends all buffers, however the system splits the work. It succeeds only if everything went
        out and the last buffer is not empty, and it does succeed if no send fails or stalls. With an
        empty last buffer it never finishes. */
    method Send(buffers: seq<seq<Byte>>) returns (ok: bool)
      modifies this`wire, this`sends
      ensures old(wire) <= wire <= old(wire) + Concat(buffers)
      ensures ok ==> wire == old(wire) + Concat(buffers)
      ensures ok && buffers != [] ==> EndsNonEmpty(buffers)
      ensures AllPositive(old(sends)) && |old(sends)| >= |Concat(buffers)| && (buffers == [] || EndsNonEmpty(buffers))
              ==> ok
      ensures ok && AllPositive(old(sends)) ==> AllPositive(sends) && |sends| + |Concat(buffers)| >= |old(sends)|
    {
      var left := buffers;
      while left != []
        invariant left != [] ==> EndsNonEmpty(left) == EndsNonEmpty(buffers)
        invariant old(wire) <= wire && wire + Concat(left) == old(wire) + Concat(buffers)
        invariant AllPositive(old(sends)) ==> AllPositive(sends)
        invariant AllPositive(old(sends)) && (buffers == [] || EndsNonEmpty(buffers)) ==>
                    |sends| + |Concat(buffers)| >= |old(sends)| + |Concat(left)|
        invariant left == [] <==> buffers == []
        decreases |sends|
      {
        LastInConcat(left);
        assert AllPositive(old(sends)) && |old(sends)| >= |Concat(buffers)| && EndsNonEmpty(buffers) ==>
                 sends != [] && sends[0] > 0;
        var sent := SendBuffers(left);
        if sent == -1 { return false; }
        assert wire + Concat(left)[sent..] == old(wire) + Concat(buffers);
        AdvanceDropsSent(left, sent);
        AdvanceEnd(left, sent);
        var iter := SkipSent(left, sent);
        if iter == [] { break; }
        left := iter;
      }
      return true;
    }

    /** The inner loop: moves past what has been sent, one buffer at a time. */
    static method SkipSent(buffers: seq<seq<Byte>>, count: nat) returns (r: seq<seq<Byte>>)
      requires count <= |Concat(buffers)|
      ensures r == Advance(buffers, count)
    {
      r := buffers;
      var sent := count;
      while sent > 0
        invariant 0 <= sent <= |Concat(r)| && Advance(r, sent) == Advance(buffers, count)
        decreases |r|
      {
        ConcatHead(r);
        if |r[0]| > sent {
          return [r[0][sent..]] + r[1..];
        }
        sent := sent - |r[0]|;
        r := r[1..];
      }
    }

    /** One receive: -1 on error, 0 when the peer is gone. */
    method Receive(length: nat) returns (n: int, data: seq<Byte>)
      modifies this`incoming, this`receives
      ensures old(receives) == [] || old(receives)[0] < 0 ==> n == -1
      ensures old(receives) != [] && old(receives)[0] >= 0 ==>
                n == Min(Min(old(receives)[0], length), |old(incoming)|)
      ensures |data| == (if n == -1 then 0 else n) <= length && old(incoming) == data + incoming
      ensures receives == if old(receives) == [] then [] else old(receives)[1..]
    {
      var k := if receives == [] then -1 else receives[0];
      receives := if receives == [] then [] else receives[1..];
      if k < 0 { return -1, []; }
      n := Min(Min(k, length), |incoming|);
      data := incoming[..n];
      incoming := incoming[n..];
    }

    /** Receives until `length` bytes are there or no more come. What it returns is the front of the
        stream; -1 means that nothing came. */
    method ReceiveAll(length: nat) returns (n: int, data: seq<Byte>)
      modifies this`incoming, this`receives
      ensures |data| == (if n == -1 then 0 else n) <= length && old(incoming) == data + incoming
      ensures length > 0 ==> n != 0
      ensures length == 0 ==> n == 0
      ensures Lively(old(receives), |old(incoming)|) ==>
                |data| == Min(length, |old(incoming)|) && (|data| == length ==> Lively(receives, |incoming|))
    {
      data := [];
      ghost var stream, lively := incoming, Lively(receives, |incoming|);
      while |data| < length
        invariant |data| <= length && stream == data + incoming
        invariant lively ==> Lively(receives, |incoming|)
        decreases |receives|, length - |data|
      {
        ghost var before := incoming;
        var bytes, piece := Receive(length - |data|);
        assert data + before == data + piece + incoming;
        if bytes <= 0 {
          if |data| == 0 { return -1, []; }
          assert data + piece == data;
          return |data|, data;
        }
        data := data + piece;
      }
      n := |data|;
    }
  }

  /** The receives never fail, and there are enough of them for every byte and the end. */
  ghost predicate Lively(receives: seq<int>, bytes: nat) {
    AllPositive(receives) && |receives| > bytes
  }
}

/** Message framing over a stream socket. */
module TcpTransport {
  import opened Bytes
  import opened MessageLength
  import opened StreamSocket

  function Frame(message: seq<Byte>): seq<Byte> {
    BigEndian(|message|, 8) + message
  }

  function Frames(messages: seq<seq<Byte>>): seq<Byte> {
    if messages == [] then [] else Frames(messages[..|messages| - 1]) + Frame(messages[|messages| - 1])
  }

  lemma {:induction false} FramesCons(messages: seq<seq<Byte>>)
    requires messages != []
    ensures Frames(messages) == Frame(messages[0]) + Frames(messages[1..])
    decreases |messages|
  {
    var init := messages[..|messages| - 1];
    if init == [] {
      assert messages[1..] == [];
    } else {
      FramesCons(init);
      assert init[1..] == messages[1..][..|messages| - 2];
      assert init[0] == messages[0];
    }
  }

  /** Messages that the framing can carry. */
  ghost predicate Framed(messages: seq<seq<Byte>>) {
    forall i :: 0 <= i < |messages| ==> |messages[i]| < U64
  }

  /** Messages that the sender can also finish. A peer may well send an empty one. */
  ghost predicate Sendable(messages: seq<seq<Byte>>) {
    forall i :: 0 <= i < |messages| ==> 0 < |messages[i]| < U64
  }

  class Transport {
    var socket: Socket?
    var messageBytesLeft: nat
    ghost var current: seq<Byte>          // the rest of the message being read
    ghost var later: seq<seq<Byte>>       // the messages behind it in the stream

    /** Unless closed, the stream is exactly the rest of the current message and whole frames. */
    ghost predicate Aligned()
      reads this, socket
    {
      socket != null ==>
        && messageBytesLeft == |current| && Framed(later)
        && socket.incoming == current + Frames(later)
    }

    constructor (s: Socket, ghost messages: seq<seq<Byte>>)
      requires s.incoming == Frames(messages) && Framed(messages)
      ensures socket == s && Aligned() && current == [] && later == messages
    {
      socket, messageBytesLeft := s, 0;
      current, later := [], messages;
    }

    method Close()
      modifies this`socket
      ensures socket == null
    {
      socket := null;
    }

    /** The message that the next read reads from, and the messages after it. */
    ghost function Reading(): (seq<Byte>, seq<seq<Byte>>)
      reads this
    {
      if current != [] || later == [] then (current, later) else (later[0], later[1..])
    }

    /** Reads the next length if the last message is used up. */
    method ReadHeader() returns (ok: bool)
      requires socket != null && Aligned()
      modifies this`messageBytesLeft, this`current, this`later, socket`incoming, socket`receives
      ensures ok ==> Aligned() && (old(current) != [] || old(later) != []) && (current, later) == old(Reading())
      ensures Lively(old(socket.receives), |old(socket.incoming)|) ==>
                && (!ok ==> old(current) == [] && old(later) == [])
                && (ok ==> Lively(socket.receives, |socket.incoming|))
    {
      if messageBytesLeft != 0 { return true; }
      ghost var stream := socket.incoming;
      assert stream == Frames(later);
      if later != [] { FirstFrame(later); }
      var n, buffer := socket.ReceiveAll(8);
      if n != 8 { return false; }
      assert buffer == stream[..8] && socket.incoming == stream[8..];
      messageBytesLeft := ExtractMessageLength(buffer);
      current, later := later[0], later[1..];
      return true;
    }

    /** Reads up to `length` bytes of one message. On failure the transport is closed; otherwise the
        bytes are the front of the message at hand, at least one unless none were asked for or the
        message is empty, and the stream stays aligned. While receives do not fail, it only fails at
        the end of the stream and never returns less than it could. */
    method Read(length: nat) returns (n: int, data: seq<Byte>)
      requires Aligned()
      modifies this, socket
      ensures Aligned() && (socket == null || socket == old(socket))
      ensures n == -1 ==> socket == null && data == []
      ensures n != -1 ==>
                && n == |data| <= length && socket != null
                && (old(current) != [] || old(later) != []) && data <= old(Reading()).0
                && current == old(Reading()).0[n..] && later == old(Reading()).1
                && (length > 0 && old(Reading()).0 != [] ==> n > 0)
      ensures old(socket) != null && Lively(old(socket.receives), |old(socket.incoming)|) ==>
                && (n == -1 ==> old(current) == [] && old(later) == [])
                && (n != -1 ==> n == Min(length, |old(Reading()).0|) && Lively(socket.receives, |socket.incoming|))
    {
      if socket == null { return -1, []; }
      var ok := ReadHeader();
      if !ok {
        Close();
        return -1, [];
      }
      ghost var message := current;
      n, data := socket.ReceiveAll(Min(length, messageBytesLeft));
      if n == -1 {
        Close();
      } else {
        CutStream(message, Frames(later), data, socket.incoming);
        messageBytesLeft := messageBytesLeft - n;
        current := message[n..];
      }
    }

    /** Sends one message. On failure the transport is closed; a success means that the whole frame
        went out. An empty message never succeeds. */
    method Write(data: seq<Byte>) returns (r: int)
      requires |data| < U64
      modifies this`socket, socket
      ensures r == -1 || r == |data|
      ensures r == -1 ==> socket == null
      ensures r != -1 ==>
                && socket != null && socket == old(socket) && data != []
                && socket.wire == old(socket.wire) + Frame(data)
      ensures old(socket) != null && data != [] && AllPositive(old(socket.sends))
              && |old(socket.sends)| >= |Frame(data)| ==>
                r == |data|
      ensures r != -1 && AllPositive(old(socket.sends)) ==>
                AllPositive(socket.sends) && |socket.sends| + |Frame(data)| >= |old(socket.sends)|
    {
      if socket == null { return -1; }
      var header := EncodeMessageLength(|data|);
      var buffers := [header[..], data];
      TwoBuffers(header[..], data);
      var ok := socket.Send(buffers);
      if !ok {
        Close();
        return -1;
      }
      return |data|;
    }

    method WriteAll(messages: seq<seq<Byte>>) returns (ok: bool)
      requires forall i :: 0 <= i < |messages| ==> |messages[i]| < U64
      requires socket != null
      modifies this`socket, socket
      ensures ok ==> socket == old(socket) && socket.wire == old(socket.wire) + Frames(messages) && Sendable(messages)
      ensures !ok ==> socket == null
      ensures Sendable(messages) && AllPositive(old(socket.sends)) && |old(socket.sends)| >= |Frames(messages)| ==> ok
    {
      for i := 0 to |messages|
        invariant socket == old(socket) && socket.wire == old(socket.wire) + Frames(messages[..i])
        invariant Sendable(messages[..i])
        invariant AllPositive(old(socket.sends)) ==>
                    AllPositive(socket.sends) && |socket.sends| + |Frames(messages[..i])| >= |old(socket.sends)|
      {
        FramesLonger(messages, i);
        var r := Write(messages[i]);
        if r == -1 { return false; }
        assert messages[..i + 1][..i] == messages[..i];
      }
      assert messages[..|messages|] == messages;
      return true;
    }

    /** Any sequence of reads. Together the reads return the front of the messages in order, each one
        inside a single message; unless the transport was closed, what is left in the stream is the
        rest; and if receives do not fail, it is closed only after everything was returned. */
    method ReadRun(sizes: seq<nat>, ghost messages: seq<seq<Byte>>) returns (pieces: seq<seq<Byte>>)
      requires socket != null && Aligned() && current == [] && later == messages
      modifies this, socket
      ensures Aligned() && Concat(pieces) <= Concat(messages)
      ensures socket != null ==> |pieces| == |sizes| && Concat(pieces) + current + Concat(later) == Concat(messages)
      ensures forall i :: 0 <= i < |pieces| ==>
                i < |sizes| && |pieces[i]| <= sizes[i] && WithinOne(messages, |Concat(pieces[..i])|, |pieces[i]|)
      ensures forall i :: 0 <= i < |pieces| && sizes[i] > 0 && [] !in messages ==> pieces[i] != []
      ensures socket == null && Lively(old(socket.receives), |old(socket.incoming)|) ==>
                Concat(pieces) == Concat(messages)
    {
      hide Position, WithinOne, Concat, Frames;
      pieces := [];
      ghost var j := 0;
      PositionStart(messages);
      ghost var lively := Lively(socket.receives, |socket.incoming|);
      for i := 0 to |sizes|
        invariant socket == old(socket) && Aligned() && |pieces| == i
        invariant Position(messages, j, current, later, Concat(pieces))
        invariant forall k :: 0 <= k < i ==>
                    |pieces[k]| <= sizes[k] && WithinOne(messages, |Concat(pieces[..k])|, |pieces[k]|)
        invariant forall k :: 0 <= k < i && sizes[k] > 0 && [] !in messages ==> pieces[k] != []
        invariant lively ==> Lively(socket.receives, |socket.incoming|)
      {
        PositionPrefix(messages, j, current, later, Concat(pieces));
        ghost var before := Concat(pieces);
        ghost var (m, rest) := Reading();
        ghost var j' := NextMessage(messages, j, current, later, before, m, rest);
        PositionPrefix(messages, j', m, rest, before);
        var n, data := Read(sizes[i]);
        if n == -1 { return; }
        ReadInside(messages, j', m, rest, before, n);
        assert data == m[..n];
        ConcatSnoc(pieces, data);
        KeepsFronts(pieces, data);
        pieces := pieces + [data];
        j := j';
      }
      PositionPrefix(messages, j, current, later, Concat(pieces));
    }
  }

  // ------------------------------------------------------------ framing

  lemma {:induction false} FramesLonger(messages: seq<seq<Byte>>, i: nat)
    requires i < |messages|
    ensures |Frames(messages[..i])| + |Frame(messages[i])| <= |Frames(messages)|
    decreases |messages|
  {
    var n := |messages| - 1;
    if i < n {
      FramesLonger(messages[..n], i);
      assert messages[..n][..i] == messages[..i];
    } else {
      assert messages[..i] == messages[..n];
    }
  }

  lemma FirstFrame(messages: seq<seq<Byte>>)
    requires messages != [] && |messages[0]| < U64
    ensures |Frames(messages)| >= 8
    ensures Frames(messages)[8..] == messages[0] + Frames(messages[1..])
    ensures Value(Frames(messages)[..8]) == |messages[0]|
  {
    hide Frames, BigEndian, Value, Pow256;
    FramesCons(messages);
    var header := BigEndian(|messages[0]|, 8);
    assert Frames(messages) == header + (messages[0] + Frames(messages[1..]));
    assert Frames(messages)[..8] == header;
    Pow256Eight();
    ValueOfBigEndian(|messages[0]|, 8);
  }

  lemma CutStream(message: seq<Byte>, rest: seq<Byte>, data: seq<Byte>, incoming: seq<Byte>)
    requires message + rest == data + incoming && |data| <= |message|
    ensures data <= message && incoming == message[|data|..] + rest
  {
    assert data == (message + rest)[..|data|];
    assert incoming == (message + rest)[|data|..];
  }

  lemma TwoBuffers(a: seq<Byte>, b: seq<Byte>)
    ensures Concat([a, b]) == a + b
  {
    ConcatSnoc([a], b);
    ConcatSnoc([], a);
    assert [] + [a] == [a] && [a] + [b] == [a, b];
  }

  /** A read of `n` bytes at payload position `at` lies inside one message. */
  ghost predicate WithinOne(messages: seq<seq<Byte>>, at: nat, n: nat) {
    exists j :: 0 <= j < |messages| && |Concat(messages[..j])| <= at && at + n <= |Concat(messages[..j + 1])|
  }

  /** `j` messages have been begun, `current` is the rest of the last of them, and `got` is what
      came before it. */
  ghost predicate Position(messages: seq<seq<Byte>>, j: nat, current: seq<Byte>, later: seq<seq<Byte>>,
                           got: seq<Byte>) {
    && j <= |messages| && later == messages[j..] && got + current == Concat(messages[..j])
    && (j == 0 ==> current == [])
    && (j > 0 ==> |current| <= |messages[j - 1]|)
  }

  lemma PositionStart(messages: seq<seq<Byte>>)
    ensures Concat<Byte>([]) == [] && Position(messages, 0, [], messages, [])
  {
  }

  lemma KeepsFronts<T>(s: seq<T>, x: T)
    ensures forall k :: 0 <= k <= |s| ==> (s + [x])[..k] == s[..k]
  {
  }

  lemma PositionPrefix(messages: seq<seq<Byte>>, j: nat, current: seq<Byte>, later: seq<seq<Byte>>, got: seq<Byte>)
    requires Position(messages, j, current, later, got)
    ensures got <= Concat(messages) && got + current + Concat(later) == Concat(messages)
  {
    ConcatAppend(messages[..j], messages[j..]);
    assert messages[..j] + messages[j..] == messages;
  }

  lemma NextMessage(messages: seq<seq<Byte>>, j: nat, current: seq<Byte>, later: seq<seq<Byte>>, got: seq<Byte>,
                    m: seq<Byte>, rest: seq<seq<Byte>>) returns (j': nat)
    requires Position(messages, j, current, later, got)
    requires (m, rest) == if current != [] || later == [] then (current, later) else (later[0], later[1..])
    ensures Position(messages, j', m, rest, got)
    ensures current != [] || later != [] ==> j' > 0 && ([] !in messages ==> m != [])
  {
    if current != [] || later == [] {
      j' := j;
    } else {
      j' := j + 1;
      assert messages[..j + 1] == messages[..j] + [messages[j]];
      ConcatSnoc(messages[..j], messages[j]);
    }
  }

  lemma ReadInside(messages: seq<seq<Byte>>, j: nat, m: seq<Byte>, rest: seq<seq<Byte>>, got: seq<Byte>, n: nat)
    requires Position(messages, j, m, rest, got) && n <= |m| && j > 0
    ensures Position(messages, j, m[n..], rest, got + m[..n])
    ensures WithinOne(messages, |got|, n)
  {
    assert got + m[..n] + m[n..] == got + m;
    assert messages[..j] == messages[..j - 1] + [messages[j - 1]];
    ConcatSnoc(messages[..j - 1], messages[j - 1]);
    assert |Concat(messages[..j - 1])| <= |got| && |got| + n <= |Concat(messages[..j - 1 + 1])|;
  }

  /** The whole path: whatever the system does with the sends and the receives, and whatever sizes the
      reader asks for, the reads return the front of the written messages, each inside one message and
      none of them empty unless nothing was asked for. Everything is sent if sends only make progress,
      and if receives do not fail the transport closes only after everything was returned. */
  method RoundTrip(messages: seq<seq<Byte>>, sends: seq<int>, receives: seq<int>, sizes: seq<nat>)
    returns (sent: bool, closed: bool, pieces: seq<seq<Byte>>)
    requires forall i :: 0 <= i < |messages| ==> |messages[i]| < U64
    ensures Sendable(messages) && AllPositive(sends) && |sends| >= |Frames(messages)| ==> sent
    ensures sent ==> Concat(pieces) <= Concat(messages) && |pieces| <= |sizes|
    ensures sent ==> forall i :: 0 <= i < |pieces| ==>
              && |pieces[i]| <= sizes[i] && (sizes[i] > 0 ==> pieces[i] != [])
              && WithinOne(messages, |Concat(pieces[..i])|, |pieces[i]|)
    ensures sent && !closed ==> |pieces| == |sizes|
    ensures !sent ==> !closed && pieces == []
    ensures sent && closed && Lively(receives, |Frames(messages)|) ==> Concat(pieces) == Concat(messages)
  {
    hide WithinOne;
    var out := new Socket(sends, [], []);
    var writer := new Transport(out, []);
    sent := writer.WriteAll(messages);
    if !sent { return false, false, []; }
    var inn := new Socket([], out.wire, receives);
    assert [] + Frames(messages) == Frames(messages);
    var reader := new Transport(inn, messages);
    pieces := reader.ReadRun(sizes, messages);
    closed := reader.socket == null;
  }
}
