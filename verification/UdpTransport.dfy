/** The UDP transport object: the sending and receiving loops themselves, shown to perform runs of
    the host machine. */
module UdpTransport {
  import opened Bytes
  import opened UdpWire
  import opened UdpHost
  import opened UdpTrace

  /** What one receive finds: a datagram, nothing within the timeout, or a socket error. */
  datatype Arrival = Arrived(bytes: seq<Byte>) | Nothing | Broken

  datatype Io = Out(bytes: seq<Byte>) | OutFailed | In(bytes: seq<Byte>) | InTimedOut | InFailed

  /** The socket operations a log stands for. */
  function IoOf(e: Event): seq<Io> {
    match e
    case Begin(_, _, _) => []
    case Sent(_, b) => [Out(b)]
    case SendFailed => [OutFailed]
    case TimedOut => [InTimedOut]
    case ReceiveFailed => [InFailed]
    case Short(b) => [In(b)]
    case Ignored(b) => [In(b)]
    case Accepted(b) => [In(b)]
  }

  function IoLog(log: seq<Event>): seq<Io> {
    if log == [] then [] else IoLog(log[..|log| - 1]) + IoOf(log[|log| - 1])
  }

  lemma StepKeepsFirst(h: Host, e: Event)
    requires Step(h, e).Some?
    ensures Step(h, e).value.first == h.first
  {
  }

  lemma LogSnoc(h: Host, log: seq<Event>, e: Event)
    requires Run(h, log).Some?
    ensures Run(h, log + [e]) == Step(Run(h, log).value, e)
    ensures IoLog(log + [e]) == IoLog(log) + IoOf(e)
    ensures Accepts(log + [e]) == Accepts(log) + if e.Accepted? then 1 else 0
    ensures LastPayload(log + [e]) == if e.Begin? then e.data else LastPayload(log)
    ensures LastId(log + [e]) == if e.Begin? then e.id else LastId(log)
  {
    assert (log + [e])[..|log|] == log;
  }

  /** `data` copied into `buf` from `off` on, as far as it fits. */
  function Filled(buf: seq<Byte>, off: nat, data: seq<Byte>): (r: seq<Byte>)
    requires off <= |buf|
    ensures |r| == |buf|
  {
    var k := Min(|data|, |buf| - off);
    buf[..off] + data[..k] + buf[off + k..]
  }

  lemma FilledNothingAt(buf: seq<Byte>, off: nat)
    requires off <= |buf|
    ensures Filled(buf, off, []) == buf
  {
  }

  lemma FilledFront(rx: seq<Byte>, buf: seq<Byte>, data: seq<Byte>)
    requires |buf| == 4 && rx == Filled(buf, 0, data)
    ensures |data| >= 2 ==> rx[..2] == data[..2]
    ensures |data| >= 4 ==> rx[2..4] == data[2..4]
  {
  }

  lemma FilledWhole(buf: seq<Byte>, data: seq<Byte>)
    requires |data| <= |buf|
    ensures Filled(buf, 0, data) == data + buf[|data|..]
  {
  }

  lemma FilledTwice(buf: seq<Byte>, off: nat, a: seq<Byte>, b: seq<Byte>)
    requires off <= |buf|
    ensures Filled(Filled(buf, off, a), off + Min(|a|, |buf| - off), b) == Filled(buf, off, a + b)
  {
    var k := Min(|a|, |buf| - off);
    var one := Filled(buf, off, a);
    assert one[..off + k] == buf[..off] + a[..k];
    assert one[off + k..] == buf[off + k..];
    var j := Min(|b|, |buf| - off - k);
    assert one[off + k + j..] == buf[off + k + j..];
    assert (a + b)[..Min(|a + b|, |buf| - off)] == a[..k] + b[..j];
  }

  /** A socket driven by scripts of outcomes; a script that is used up is a socket error, so every
      terminating run of the transport is some script. */
  class Socket {
    var sendOutcomes: seq<bool>
    var arrivals: seq<Arrival>
    var receiveTimedOut: bool
    ghost var history: seq<Io>

    method Send(bytes: seq<Byte>) returns (ok: bool)
      modifies this
      ensures ok == (old(sendOutcomes) != [] && old(sendOutcomes)[0])
      ensures sendOutcomes == if old(sendOutcomes) == [] then [] else old(sendOutcomes)[1..]
      ensures history == old(history) + [if ok then Out(bytes) else OutFailed]
      ensures arrivals == old(arrivals) && receiveTimedOut == old(receiveTimedOut)
    {
      ok := false;
      if sendOutcomes != [] {
        ok := sendOutcomes[0];
        sendOutcomes := sendOutcomes[1..];
      }
      history := history + [if ok then Out(bytes) else OutFailed];
    }

    /** Returns -1 on a timeout or an error, otherwise the length of `data`. */
    method Receive(size: nat) returns (n: int, data: seq<Byte>)
      modifies this
      ensures n == -1 ==> history == old(history) + [if receiveTimedOut then InTimedOut else InFailed]
      ensures n != -1 ==> n == |data| && |data| <= size && !receiveTimedOut && history == old(history) + [In(data)]
      ensures (n == -1 && !receiveTimedOut) || |arrivals| < |old(arrivals)|
      ensures n != -1 ==> old(arrivals) != [] && old(arrivals)[0].Arrived? &&
                          data == old(arrivals)[0].bytes[..Min(|old(arrivals)[0].bytes|, size)]
    {
      receiveTimedOut := false;
      var next := if arrivals == [] then Broken else arrivals[0];
      if arrivals != [] { arrivals := arrivals[1..]; }
      match next
      case Arrived(b) =>
        n, data := Min(|b|, size), b[..Min(|b|, size)];
        history := history + [In(data)];
      case Nothing =>
        receiveTimedOut := true;
        n, data := -1, [];
        history := history + [InTimedOut];
      case Broken =>
        n, data := -1, [];
        history := history + [InFailed];
    }
  }

  datatype Outcome = Fatal | Retry | Reply

  lemma BeginStep(h: Host, id: Byte, tx: seq<Byte>, attempts: nat)
    requires h.phase.Idle? && id != ID_ERROR && attempts > 0
    ensures Step(h, Begin(id, tx, attempts)).Some?
    ensures var h' := Step(h, Begin(id, tx, attempts)).value;
            && h'.first == h.first && h'.id == id && h'.attempts == attempts
            && h'.payload == h.payload + tx && h'.got == []
            && h'.phase.Sending? && h'.left == attempts && h'.issued != []
            && h'.Current() == NextChunk(id, tx, h.maxData) && h'.rest == tx[|h'.Current().data|..]
  {
  }

  lemma SendSteps(h: Host, n: int, b: seq<Byte>)
    requires h.phase.Sending? && h.issued != []
    ensures Step(h, SendFailed) == Some(h.(phase := Failed))
    ensures n == h.Next() - 1 && b == Datagram(n, h.Current()) ==> Step(h, Sent(n, b)) == Some(h.(phase := Waiting))
  {
  }

  lemma ReplySteps(h: Host, b: seq<Byte>)
    requires h.phase.Waiting? && h.issued != [] && h.left > 0
    ensures Step(h, TimedOut) == Some(h.(left := h.left - 1, phase := if h.left == 1 then Failed else Sending))
    ensures |b| >= HEADER_SIZE && CurrentMatches(h, b) ==>
              var h' := Accept(h, b);
              && Step(h, Accepted(b)) == Some(h')
              && h'.id == h.id && h'.attempts == h.attempts && h'.payload == h.payload && h'.first == h.first
  {
  }

  lemma IoNothing()
    ensures IoLog([]) == []
  {
  }

  class Transport {
    var socket: Socket?
    var sequence: int
    var maxDataLength: nat
    var rxPacket: seq<Byte>      // the bytes of the last datagram received
    var rxPacketSize: nat
    ghost var host: Host
    ghost var log: seq<Event>
    ghost var before: seq<Io>    // socket operations before the log starts

    /** The log is a run of the host machine, and the socket saw exactly its operations. */
    ghost predicate Tracks()
      reads this, socket
    {
      && socket != null && maxDataLength > 0
      && rxPacketSize == maxDataLength + HEADER_SIZE
      && Reaches(host.first, maxDataLength, log, host)
      && socket.history == before + IoLog(log)
    }

    ghost predicate Valid()
      reads this, socket
    {
      Tracks() && sequence == host.first + Accepts(log)
    }

    /** Appends one event to the log. */
    ghost method Note(e: Event)
      requires socket != null && maxDataLength > 0 && rxPacketSize == maxDataLength + HEADER_SIZE
      requires Reaches(host.first, maxDataLength, log, host) && Step(host, e).Some?
      requires socket.history == before + IoLog(log) + IoOf(e)
      modifies this`host, this`log
      ensures Tracks() && host == Step(old(host), e).value && log == old(log) + [e]
      ensures Accepts(log) == Accepts(old(log)) + if e.Accepted? then 1 else 0
      ensures LastPayload(log) == if e.Begin? then e.data else LastPayload(old(log))
      ensures LastId(log) == if e.Begin? then e.id else LastId(old(log))
    {
      hide Run, IoLog, Accepts, LastPayload, LastId, Step, IoOf;
      LogSnoc(Start(host.first, maxDataLength), log, e);
      StepKeepsFirst(host, e);
      host := Step(host, e).value;
      log := log + [e];
    }

    /** `b` goes on from `a` within one call. */
    static ghost predicate Longer(a: seq<Event>, b: seq<Event>) {
      a <= b && forall i :: |a| <= i < |b| ==> !b[i].Begin?
    }

    /** What a call keeps while it runs, apart from numbers and received data. */
    twostate predicate SameCall()
      reads this
    {
      && socket == old(socket) && maxDataLength == old(maxDataLength) && before == old(before)
      && host.id == old(host.id) && host.attempts == old(host.attempts) && host.payload == old(host.payload)
      && host.first == old(host.first) && Longer(old(log), log)
      && LastPayload(log) == old(LastPayload(log)) && LastId(log) == old(LastId(log))
    }

    /** One socket operation has happened that the log does not have yet. */
    ghost predicate Pending(io: Io)
      reads this, socket
    {
      && socket != null && maxDataLength > 0 && rxPacketSize == maxDataLength + HEADER_SIZE
      && Reaches(host.first, maxDataLength, log, host)
      && socket.history == before + IoLog(log) + [io]
      && sequence == host.first + Accepts(log)
    }

    /** Receives until a datagram matches the header in flight or the receive times out. */
    method ReceiveMatching(header: seq<Byte>) returns (bytes: int, fatal: bool)
      requires Valid() && host.phase.Waiting? && host.issued != [] && |header| == HEADER_SIZE
      requires header == HeaderBytes(host.Current().id, host.Next() - 1, host.Current().flag)
      modifies this`rxPacket, this`host, this`log, socket
      ensures SameCall()
      ensures fatal ==> Valid() && host.phase.Failed?
      ensures !fatal ==> host == old(host) && |socket.arrivals| < |old(socket.arrivals)|
      ensures !fatal && socket.receiveTimedOut ==> Pending(InTimedOut)
      ensures !fatal && !socket.receiveTimedOut ==>
                bytes == |rxPacket| >= HEADER_SIZE && Matches(header, rxPacket) && Pending(In(rxPacket))
    {
      hide Run, IoLog, Accepts, LastPayload, LastId;
      while true
        invariant Valid() && SameCall() && host == old(host)
        invariant |socket.arrivals| <= |old(socket.arrivals)|
        decreases |socket.arrivals|
      {
        var data;
        bytes, data := socket.Receive(rxPacketSize);
        if bytes == -1 {
          if socket.receiveTimedOut { return bytes, false; }
          Note(ReceiveFailed);
          return bytes, true;
        }
        rxPacket := data;
        if bytes < HEADER_SIZE {
          Note(Short(data));
          return bytes, true;
        }
        if Matches(header, rxPacket) { return bytes, false; }
        Note(Ignored(data));
      }
    }

    /** Copies received data into the caller's buffer. */
    method CopyOut(rx: array<Byte>, off: nat, data: seq<Byte>)
      requires off <= rx.Length
      modifies rx
      ensures rx[..] == Filled(old(rx[..]), off, data)
    {
      var k := Min(|data|, rx.Length - off);
      forall i | 0 <= i < k { rx[off + i] := data[i]; }
    }

    /** Transmits the packet in flight once and waits for its reply. */
    method Exchange(header: seq<Byte>, data: seq<Byte>) returns (outcome: Outcome)
      requires Valid() && host.phase.Sending? && host.issued != [] && host.left > 0
      requires header == HeaderBytes(host.Current().id, sequence, host.Current().flag)
      requires data == host.Current().data
      modifies this`sequence, this`rxPacket, this`host, this`log, socket
      ensures Valid() && SameCall()
      ensures sequence == old(sequence) + if outcome.Reply? then 1 else 0
      ensures outcome.Fatal? ==> host.phase.Failed?
      ensures outcome.Retry? ==>
                host == old(host).(left := old(host.left) - 1, phase := if old(host.left) == 1 then Failed else Sending)
      ensures outcome.Reply? ==>
                |rxPacket| >= HEADER_SIZE && host == Accept(old(host).(phase := Waiting), rxPacket)
      ensures !outcome.Fatal? ==> |socket.arrivals| < |old(socket.arrivals)|
    {
      hide Run, IoLog, Accepts, LastPayload, LastId, Step, Accept, Reaches;
      SendSteps(host, sequence, header + data);
      NumbersInStep(host.first, maxDataLength, log, host);
      var ok := socket.Send(header + data);
      if !ok {
        Note(SendFailed);
        return Fatal;
      }
      Note(Sent(sequence, header + data));
      var bytes, fatal := ReceiveMatching(header);
      if fatal { return Fatal; }
      ReplySteps(host, rxPacket);
      if socket.receiveTimedOut {
        Note(TimedOut);
        return Retry;
      }
      sequence := sequence + 1;
      Note(Accepted(rxPacket));
      return Reply;
    }

    /** Sends the packet in flight and handles its replies; see the contract of `SendData`. */
    method SendSinglePacket(id: Byte, flag: Byte, tx: seq<Byte>, rx: array<Byte>, off: nat, attempts: nat)
      returns (r: int)
      requires Valid() && host.phase.Sending? && host.left == host.attempts == attempts > 0
      requires host.issued != [] && host.Current() == Packet(id, flag, tx)
      requires off <= rx.Length
      modifies this`sequence, this`rxPacket, this`host, this`log, socket, rx
      ensures Valid() && SameCall()
      ensures r == -1 ==> host.phase.Failed?
      ensures r != -1 ==>
                && sequence > old(sequence)
                && old(host.got) <= host.got && r == |host.got| - |old(host.got)|
                && rx[..] == Filled(old(rx[..]), off, host.got[|old(host.got)|..])
      ensures r != -1 ==> if old(host.rest) == [] then host.phase.Idle? && host.rest == []
                          else host.phase.Sending? && host.left == attempts && host.issued != []
                               && host.Current() == NextChunk(host.id, old(host.rest), maxDataLength)
                               && host.rest == old(host.rest)[|host.Current().data|..]
    {
      hide Run, IoLog, Accepts, LastPayload, LastId, Step, Reaches, Filled, HeaderBytes;
      FilledNothingAt(rx[..], off);
      assert host.got[|host.got|..] == [];
      r := 0;
      var header := HeaderBytes(id, sequence, flag);
      var data, rxOff, attemptsLeft := tx, off, attempts;
      NumbersInStep(host.first, maxDataLength, log, host);
      RunKeepsInv(host.first, maxDataLength, log, host);
      while attemptsLeft > 0
        invariant Valid() && SameCall() && host.phase.Sending? && host.rest == old(host.rest)
        invariant attemptsLeft == host.left && host.issued != [] && host.maxData == maxDataLength
        invariant header == HeaderBytes(host.Current().id, sequence, host.Current().flag)
        invariant data == host.Current().data && sequence >= old(sequence)
        invariant old(host.got) <= host.got && r == |host.got| - |old(host.got)|
        invariant rxOff == off + Min(r, rx.Length - off)
        invariant rx[..] == Filled(old(rx[..]), off, host.got[|old(host.got)|..])
        decreases |socket.arrivals|
      {
        ghost var got := host.got[|old(host.got)|..];
        var outcome := Exchange(header, data);
        if outcome.Fatal? { return -1; }
        if outcome.Retry? {
          attemptsLeft := attemptsLeft - 1;
          if attemptsLeft == 0 { return -1; }
          continue;
        }
        if rxPacket[0] != ID_ERROR {
          var piece := rxPacket[HEADER_SIZE..];
          FilledTwice(old(rx[..]), off, got, piece);
          CopyOut(rx, rxOff, piece);
          r := r + |piece|;
          rxOff := rxOff + Min(|piece|, rx.Length - rxOff);
          assert host.got[|old(host.got)|..] == got + piece;
        }
        if Continues(rxPacket) {
          attemptsLeft := attempts;
          header := HeaderBytes(rxPacket[0], sequence, FLAG_NONE);
          data := [];
          continue;
        }
        if rxPacket[0] == ID_ERROR { return -1; }
        return;
      }
    }

    ghost method NoteBegin(id: Byte, tx: seq<Byte>, attempts: nat)
      requires Valid() && host.phase.Idle? && id != ID_ERROR && attempts > 0
      modifies this`host, this`log
      ensures Valid() && LastPayload(log) == tx && LastId(log) == id && log == old(log) + [Begin(id, tx, attempts)]
      ensures before == old(before)
      ensures host.first == old(host.first) && host.id == id && host.attempts == attempts
      ensures host.payload == old(host.payload) + tx && host.got == []
      ensures host.phase.Sending? && host.left == attempts && host.issued != []
      ensures host.Current() == NextChunk(id, tx, maxDataLength)
      ensures host.rest == tx[|host.Current().data|..]
    {
      hide Run, IoLog, Accepts, LastPayload, LastId, Step, Reaches;
      RunKeepsInv(host.first, maxDataLength, log, host);
      BeginStep(host, id, tx, attempts);
      Note(Begin(id, tx, attempts));
    }

    /** Sends `tx` as one call and collects the reply data in `rx`. Returns -1 on failure, otherwise
        the number of reply bytes, which may exceed the buffer. */
    method SendData(id: Byte, tx: seq<Byte>, rx: array<Byte>, attempts: nat) returns (r: int)
      requires socket != null ==> Valid() && host.phase.Idle?
      requires id != ID_ERROR && attempts > 0
      modifies this`sequence, this`rxPacket, this`host, this`log, socket, rx
      ensures old(socket) == null ==> r == -1
      ensures old(socket) != null ==>
                && Valid() && host.first == old(host.first)
                && host.payload == old(host.payload) + tx
                && LastPayload(log) == tx && LastId(log) == id
                && before == old(before) && Longer(old(log) + [Begin(id, tx, attempts)], log)
                && (if r == -1 then host.phase.Failed?
                    else host.phase.Idle? && sequence > old(sequence) && r == |host.got|
                         && rx[..] == Filled(old(rx[..]), 0, host.got))
    {
      hide Run, IoLog, Accepts, LastPayload, LastId, Step, Reaches, Filled;
      if socket == null { return -1; }
      r := 0;
      var rest, rxOff := tx, 0;
      NoteBegin(id, tx, attempts);
      FilledNothingAt(rx[..], 0);
      while true
        invariant socket == old(socket) && maxDataLength == old(maxDataLength) && Valid()
        invariant host.first == old(host.first) && host.id == id && host.attempts == attempts
        invariant host.payload == old(host.payload) + tx
        invariant LastPayload(log) == tx && LastId(log) == id
        invariant before == old(before) && Longer(old(log) + [Begin(id, tx, attempts)], log)
        invariant host.phase.Sending? && host.left == attempts && host.issued != []
        invariant host.Current() == NextChunk(id, rest, maxDataLength)
        invariant host.rest == rest[|host.Current().data|..]
        invariant r == |host.got| && rxOff == Min(r, rx.Length) && sequence >= old(sequence)
        invariant rx[..] == Filled(old(rx[..]), 0, host.got)
        decreases |rest|
      {
        var length := Min(|rest|, maxDataLength);
        var flag := if |rest| > maxDataLength then FLAG_CONTINUATION else FLAG_NONE;
        ghost var got0 := host.got;
        var bytes := SendSinglePacket(id, flag, rest[..length], rx, rxOff, attempts);
        if bytes == -1 { return -1; }
        FilledTwice(old(rx[..]), 0, got0, host.got[|got0|..]);
        assert host.got == got0 + host.got[|got0|..];
        rxOff := if bytes < rx.Length - rxOff then rxOff + bytes else rx.Length;
        rest := rest[length..];
        r := r + bytes;
        if rest == [] { return; }
      }
    }

    /** A successful read returns, in the front of `rx`, exactly the payload of the replies the host
        accepted for it: nothing lost, repeated or cut, and no error reply among them. It fails only if
        the call failed or the replies do not fit. */
    method Read(rx: array<Byte>) returns (r: int)
      requires socket != null ==> Valid() && host.phase.Idle?
      modifies this`sequence, this`rxPacket, this`host, this`log, socket, rx
      ensures old(socket) == null ==> r == -1
      ensures old(socket) != null ==> Valid() && host.payload == old(host.payload)
      ensures old(socket) != null ==>
                && LastPayload(log) == [] && LastId(log) == ID_FASTBOOT && before == old(before)
                && Longer(old(log) + [Begin(ID_FASTBOOT, [], MAX_TRANSMISSION_ATTEMPTS)], log)
      ensures old(socket) != null && r == -1 ==> host.phase.Failed? || |RepliesSinceBegin(log)| > rx.Length
      ensures r != -1 ==>
                && host.phase.Idle? && 0 <= r <= rx.Length && sequence > old(sequence)
                && rx[..r] == RepliesSinceBegin(log) && rx[r..] == old(rx[r..])
                && !ErrorSinceBegin(log)
    {
      hide Run, IoLog, Accepts, LastPayload, LastId, Reaches;
      var bytes := SendData(ID_FASTBOOT, [], rx, MAX_TRANSMISSION_ATTEMPTS);
      if bytes == -1 { return -1; }
      RepliesCollected(host.first, maxDataLength, log, host);
      if bytes > rx.Length { return -1; }
      FilledWhole(old(rx[..]), host.got);
      return bytes;
    }

    /** A successful write has handed over all of `data` and got only empty acknowledgements. It fails
        only if the call failed or a reply brought data. */
    method Write(data: seq<Byte>) returns (r: int)
      requires socket != null ==> Valid() && host.phase.Idle?
      modifies this`sequence, this`rxPacket, this`host, this`log, socket
      ensures old(socket) == null ==> r == -1
      ensures old(socket) != null ==>
                && Valid() && LastPayload(log) == data && LastId(log) == ID_FASTBOOT && before == old(before)
                && Longer(old(log) + [Begin(ID_FASTBOOT, data, MAX_TRANSMISSION_ATTEMPTS)], log)
      ensures old(socket) != null && r == -1 ==> host.phase.Failed? || RepliesSinceBegin(log) != []
      ensures r == -1 || r == |data|
      ensures r != -1 ==>
                && host.phase.Idle? && RepliesSinceBegin(log) == [] && !ErrorSinceBegin(log)
                && Payloads(log) == old(Payloads(log)) + data
                && CallPackets(log) == Chunks(ID_FASTBOOT, data, maxDataLength)
                && CutOf(CallPackets(log), ID_FASTBOOT, data, maxDataLength)
    {
      hide Run, IoLog, Accepts, LastPayload, LastId;
      if socket == null { return -1; }
      IssuedCarryPayloads(host.first, maxDataLength, log, host);
      RunKeepsInv(host.first, maxDataLength, log, host);
      var none := new Byte[0];
      var bytes := SendData(ID_FASTBOOT, data, none, MAX_TRANSMISSION_ATTEMPTS);
      if bytes == -1 { return -1; }
      RepliesCollected(host.first, maxDataLength, log, host);
      if bytes > 0 { return -1; }
      IssuedCarryPayloads(host.first, maxDataLength, log, host);
      RunKeepsInv(host.first, maxDataLength, log, host);
      CompletedCallSentItsChunks(host.first, maxDataLength, log, host);
      return |data|;
    }

    constructor (s: Socket)
      ensures socket == s && sequence == -1 && maxDataLength == MIN_PACKET_SIZE - HEADER_SIZE
    {
      socket := s;
      sequence := -1;
      maxDataLength := MIN_PACKET_SIZE - HEADER_SIZE;
      rxPacket := [];
      rxPacketSize := 0;
    }

    /** Starts a fresh log at the current number. */
    method Restart()
      requires socket != null && maxDataLength > 0
      modifies this
      ensures Valid() && host == Start(sequence, maxDataLength) && log == [] && before == socket.history
      ensures socket == old(socket) && sequence == old(sequence) && maxDataLength == old(maxDataLength)
    {
      rxPacketSize := maxDataLength + HEADER_SIZE;
      host, log, before := Start(sequence, maxDataLength), [], socket.history;
    }

    static const Hello: seq<Byte> := [PROTOCOL_VERSION / 256, PROTOCOL_VERSION % 256,
                                      HOST_MAX_PACKET_SIZE / 256, HOST_MAX_PACKET_SIZE % 256]

    /** `calls` is the log of one call with the smallest packet size, from number `first` on. */
    static ghost predicate OneCall(first: int, calls: seq<Event>, id: Byte, tx: seq<Byte>, attempts: nat) {
      && Longer([Begin(id, tx, attempts)], calls)
      && Run(Start(first, MIN_PACKET_SIZE - HEADER_SIZE), calls).Some?
    }

    /** The handshake: asks the device for its next number, then negotiates version and size. `first`
        and `second` are the logs of the two calls, and the socket saw exactly their operations. On
        success the transport is idle with an empty log, its numbers continue the device's by the ones
        that the negotiation used, and packets have the smaller of the two maximum sizes. It fails only
        if one of the calls failed or its reply is too short or unacceptable. */
    method InitializeProtocol() returns (ok: bool, ghost first: seq<Event>, ghost second: seq<Event>)
      requires socket != null && maxDataLength == MIN_PACKET_SIZE - HEADER_SIZE
      modifies this, socket
      ensures socket == old(socket) && socket.history == old(socket.history) + IoLog(first) + IoLog(second)
      ensures OneCall(0, first, ID_DEVICE_QUERY, [], MAX_CONNECT_ATTEMPTS)
      ensures second != [] ==>
                var query := RepliesSinceBegin(first);
                && !BadReply(ID_DEVICE_QUERY, query)
                && OneCall(ExtractUint16(query[..2]), second, ID_INITIALIZATION, Hello, MAX_TRANSMISSION_ATTEMPTS)
      ensures !ok ==>
                && Valid() && log == (if second == [] then first else second)
                && (host.phase.Failed? || BadReply(LastId(log), RepliesSinceBegin(log)))
      ensures ok ==> var query, init := RepliesSinceBegin(first), RepliesSinceBegin(second);
                     && Valid() && log == [] && host == Start(sequence, maxDataLength)
                     && second != [] && !BadReply(ID_INITIALIZATION, init)
                     && sequence == ExtractUint16(query[..2]) + Accepts(second) && Accepts(second) > 0
                     && maxDataLength + HEADER_SIZE == Min(HOST_MAX_PACKET_SIZE, ExtractUint16(init[2..4]))
    {
      hide Run, IoLog, Accepts, LastPayload, LastId, Step, Filled, RepliesSinceBegin;
      second := [];
      IoNothing();
      var rx := new Byte[4](_ => 0);
      ghost var zeros := rx[..];
      sequence := 0;
      Restart();
      var bytes := SendData(ID_DEVICE_QUERY, [], rx, MAX_CONNECT_ATTEMPTS);
      first := log;
      if bytes != -1 { RepliesCollected(host.first, maxDataLength, log, host); }
      if bytes < 2 { return false, first, second; }
      FilledFront(rx[..], zeros, host.got);
      sequence := ExtractUint16(rx[..2]);
      Restart();
      ghost var rx0 := rx[..];
      bytes := SendData(ID_INITIALIZATION, Hello, rx, MAX_TRANSMISSION_ATTEMPTS);
      second := log;
      if bytes != -1 { RepliesCollected(host.first, maxDataLength, log, host); }
      if bytes < 4 { return false, first, second; }
      FilledFront(rx[..], rx0, host.got);
      var version, packetSize := ExtractUint16(rx[..2]), ExtractUint16(rx[2..4]);
      if version < PROTOCOL_VERSION || packetSize < MIN_PACKET_SIZE { return false, first, second; }
      NegotiationUsedNumbers();
      maxDataLength := Min(HOST_MAX_PACKET_SIZE, packetSize) - HEADER_SIZE;
      Restart();
      return true, first, second;
    }

    static predicate BadReply(id: Byte, reply: seq<Byte>) {
      || (id == ID_DEVICE_QUERY && |reply| < 2)
      || (id == ID_INITIALIZATION &&
          (|reply| < 4 || ExtractUint16(reply[..2]) < PROTOCOL_VERSION || ExtractUint16(reply[2..4]) < MIN_PACKET_SIZE))
    }

    lemma NegotiationUsedNumbers()
      requires Valid() && host.phase.Idle? && log != [] && host.first >= 0
      ensures sequence > host.first
    {
      NumbersInStep(host.first, maxDataLength, log, host);
      CompletedCallSentItsChunks(host.first, maxDataLength, log, host);
      IssuedAfterBegin(host.first, maxDataLength, log, host);
    }

    method Close()
      modifies this`socket
      ensures socket == null
    {
      socket := null;
    }
  }
}

/** The transport object against the device and the network. */
module UdpEndToEnd {
  import opened UdpWire
  import opened Bytes
  import opened UdpHost
  import opened UdpTrace
  import opened UdpSystem
  import opened UdpTransport

  /** If a transport's calls are the host's part of a run with a device and a lossy network, the device
      has accepted a prefix of everything written, and all of it unless a call has failed. */
  lemma WrittenIsAccepted(t: Transport, states: seq<System>, moves: seq<Move>)
    requires t.Valid() && IsRun(states, moves) && HostLog(states, moves) == t.log
    requires states[0].host.first == t.host.first && states[0].host.maxData == t.maxDataLength
    ensures var accepted := Data(states[|moves|].device.accepted);
            accepted <= Payloads(t.log) && (t.host.phase.Idle? ==> accepted == Payloads(t.log))
  {
    LogIsAccepted(states, moves, t.log, t.host);
  }

  /** If what a device answers to a read is a payload cut into packets, a read that succeeds with those
      replies returns all of it: it does not stop before the last packet. */
  lemma ReadIsWholeReply(t: Transport, id: Byte, payload: seq<Byte>, m: nat)
    requires t.Valid() && t.host.phase.Idle? && t.log != [] && LastPayload(t.log) == []
    requires m > 0 && id != ID_ERROR && RepliesCut(RepliesOfCall(t.log), id, payload, m)
    ensures |RepliesOfCall(t.log)| == |Chunks(id, payload, m)| && RepliesSinceBegin(t.log) == payload
  {
    AnswerIsCollected(t.host.first, t.maxDataLength, t.log, t.host, id, payload, m);
    RepliesCollected(t.host.first, t.maxDataLength, t.log, t.host);
  }
}
