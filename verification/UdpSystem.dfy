/** Host, device and a network that loses, duplicates and reorders datagrams.

    The device is an assumption about the environment: it processes the expected number once,
    repeats its saved reply for the number before it, and ignores everything else. Datagrams
    carry 16-bit numbers; the wide number beside each datagram in flight is history, used only
    to state that nothing older than 65535 numbers is still delivered. */
module UdpSystem {
  import opened Bytes
  import opened UdpWire
  import opened UdpHost
  import opened UdpTrace

  type InFlight = (int, seq<Byte>)

  /** `accepted` and `answers` are history: what was processed, and the reply given to it. */
  datatype Device = Device(expected: int, saved: Option<InFlight>, accepted: seq<Packet>, answers: seq<seq<Byte>>)

  /** Everything ever sent stays available: never delivering is loss, delivering twice is
      duplication, delivering late is reordering. */
  datatype System = System(host: Host, device: Device, requests: set<InFlight>, replies: set<InFlight>)

  ghost predicate Numbered(d: InFlight) {
    |d.1| >= HEADER_SIZE && WireNumber(d.1) == d.0 % NUMBERS
  }

  /** After the handshake: both sides agree on the next number, and older datagrams may linger. */
  ghost predicate Init(s: System) {
    && s.host.maxData > 0 && s.host == Start(s.host.first, s.host.maxData)
    && s.device.expected == s.host.first && s.device.accepted == [] && s.device.answers == []
    && (forall d <- s.requests :: Numbered(d) && d.0 < s.host.first)
    && (forall d <- s.replies :: Numbered(d) && d.0 < s.host.first)
    && (s.device.saved.Some? ==> Numbered(s.device.saved.value) && s.device.saved.value.0 == s.host.first - 1)
  }

  ghost predicate DeviceReply(request: seq<Byte>, reply: seq<Byte>)
    requires |request| >= HEADER_SIZE
  {
    |reply| >= HEADER_SIZE && reply[2..4] == request[2..4] && (reply[0] == request[0] || reply[0] == ID_ERROR)
  }

  /** A receive drops what exceeds the negotiated packet size. */
  function Truncated(b: seq<Byte>, maxData: nat): seq<Byte> {
    b[..Min(|b|, maxData + HEADER_SIZE)]
  }

  datatype Move =
    | Local(e: Event)                             // the host acts alone
    | Transmit(bytes: seq<Byte>)                  // the host sends a datagram
    | Deliver(reply: InFlight, e: Event)          // a reply reaches the host
    | Process(request: InFlight, answer: seq<Byte>)  // a request reaches the device

  ghost predicate Next(s: System, m: Move, s': System) {
    match m
    case Local(e) =>
      && (e.Begin? || e.SendFailed? || e.TimedOut? || e.ReceiveFailed?)
      && Step(s.host, e) == Some(s'.host) && s' == s.(host := s'.host)
    case Transmit(b) =>
      var n := s.host.Next() - 1;
      && Step(s.host, Sent(n, b)) == Some(s'.host)
      && s' == s.(host := s'.host, requests := s.requests + {(n, b)})
    case Deliver(d, e) =>
      && d in s.replies && s.host.Next() - 1 - d.0 < NUMBERS
      && (e.Short? || e.Ignored? || e.Accepted?)
      && e.bytes == Truncated(d.1, s.host.maxData)
      && Step(s.host, e) == Some(s'.host) && s' == s.(host := s'.host)
    case Process(d, answer) =>
      && d in s.requests && s.device.expected - d.0 < NUMBERS && |d.1| >= HEADER_SIZE
      && (if WireNumber(d.1) == s.device.expected % NUMBERS then
            && DeviceReply(d.1, answer)
            && s' == s.(device := Device(s.device.expected + 1, Some((s.device.expected, answer)),
                                         s.device.accepted + [Packet(d.1[0], d.1[1], d.1[HEADER_SIZE..])],
                                         s.device.answers + [answer]),
                        replies := s.replies + {(s.device.expected, answer)})
          else if WireNumber(d.1) == (s.device.expected - 1) % NUMBERS && s.device.saved.Some? then
            s' == s.(replies := s.replies + {s.device.saved.value})
          else
            s' == s)
  }

  // ------------------------------------------------------------ the invariant

  ghost predicate RequestOk(d: InFlight, h: Host) {
    && Numbered(d) && d.0 < h.Next()
    && (d.0 >= h.first ==> d.1 == Datagram(d.0, h.issued[d.0 - h.first]))
  }

  ghost predicate ReplyOk(d: InFlight, first: int, dv: Device) {
    && Numbered(d) && d.0 < dv.expected
    && (d.0 >= first ==> d.0 - first < |dv.answers| && d.1 == dv.answers[d.0 - first])
  }

  ghost predicate SysInv(s: System) {
    var h, dv := s.host, s.device;
    && UdpHost.Inv(h)
    && h.first <= dv.expected <= h.Next() <= dv.expected + 1
    && (h.phase.Idle? ==> dv.expected == h.Next())
    && dv.accepted == h.issued[..dv.expected - h.first]
    && (forall d <- s.requests :: RequestOk(d, h))
    && |dv.answers| == |dv.accepted|
    && (forall d <- s.replies :: ReplyOk(d, h.first, dv))
    && (dv.saved.Some? ==> ReplyOk(dv.saved.value, h.first, dv) && dv.saved.value.0 == dv.expected - 1)
    && |h.heard| <= |dv.answers|
    && forall i :: 0 <= i < |h.heard| ==> h.heard[i] == Truncated(dv.answers[i], h.maxData)
  }

  lemma DatagramFields(n: int, p: Packet)
    ensures var b := Datagram(n, p);
            Numbered((n, b)) && Packet(b[0], b[1], b[HEADER_SIZE..]) == p
  {
    HeaderCarriesNumber(p.id, n, p.flag, p.data);
  }

  lemma TruncationKeepsNumber(d: InFlight, maxData: nat)
    requires Numbered(d)
    ensures Numbered((d.0, Truncated(d.1, maxData)))
  {
    assert Truncated(d.1, maxData)[2..4] == d.1[2..4];
  }

  /** A reply that the host accepts answers the number in flight, so the device has processed it. */
  lemma AcceptedReplyIsCurrent(s: System, d: InFlight, e: Event)
    requires SysInv(s) && d in s.replies && s.host.Next() - 1 - d.0 < NUMBERS
    requires e.Accepted? && e.bytes == Truncated(d.1, s.host.maxData)
    requires Step(s.host, e).Some?
    ensures d.0 == s.host.Next() - 1 && s.device.expected == s.host.Next()
    ensures e.bytes == Truncated(s.device.answers[|s.host.issued| - 1], s.host.maxData)
  {
    StepIsNumbered(s.host, e);
    TruncationKeepsNumber(d, s.host.maxData);
    assert ReplyOk(d, s.host.first, s.device);
    SameNumber(d.0, s.host.Next() - 1);
  }

  /** What a host step changes: a new number is only issued when none is in flight any more, and
      only an accepted reply is recorded. */
  ghost predicate Moved(h: Host, e: Event, h': Host) {
    && UdpHost.Inv(h')
    && h'.first == h.first && h'.maxData == h.maxData
    && h.issued <= h'.issued
    && (h'.Next() == h.Next() || (h'.Next() == h.Next() + 1 && (h.phase.Idle? || e.Accepted?)))
    && (h'.phase.Idle? ==> h'.Next() == h.Next() && (h.phase.Idle? || e.Accepted?))
    && h'.heard == if e.Accepted? then h.heard + [e.bytes] else h.heard
  }

  lemma StepMoves(h: Host, e: Event)
    requires UdpHost.Inv(h) && Step(h, e).Some?
    ensures Moved(h, e, Step(h, e).value)
  {
    StepKeepsInv(h, e);
  }

  lemma MovedKeepsInv(s: System, e: Event, s': System)
    requires SysInv(s) && Moved(s.host, e, s'.host) && s' == s.(host := s'.host)
    requires e.Accepted? ==>
               && s.host.Active() && s.device.expected == s.host.Next()
               && e.bytes == Truncated(s.device.answers[|s.host.issued| - 1], s.host.maxData)
    ensures SysInv(s')
  {
    var k := s.device.expected - s.host.first;
    assert s'.host.issued[..k] == s.host.issued[..k];
    forall d | d in s.requests
      ensures RequestOk(d, s'.host)
    {
      assert RequestOk(d, s.host);
    }
  }

  lemma HostMoveKeepsInv(s: System, e: Event, s': System)
    requires SysInv(s) && Step(s.host, e) == Some(s'.host) && s' == s.(host := s'.host)
    requires e.Accepted? ==>
               && s.device.expected == s.host.Next()
               && e.bytes == Truncated(s.device.answers[|s.host.issued| - 1], s.host.maxData)
    ensures SysInv(s')
  {
    StepMoves(s.host, e);
    MovedKeepsInv(s, e, s');
  }

  lemma TransmitKeepsInv(s: System, b: seq<Byte>, s': System)
    requires SysInv(s) && Next(s, Transmit(b), s')
    ensures SysInv(s')
  {
    var n := s.host.Next() - 1;
    var mid := s.(host := s'.host);
    HostMoveKeepsInv(s, Sent(n, b), mid);
    DatagramFields(n, s.host.Current());
    assert RequestOk((n, b), s'.host);
  }

  /** The device only ever processes the packet in flight. */
  lemma ProcessedRequestIsCurrent(s: System, d: InFlight)
    requires SysInv(s) && d in s.requests && s.device.expected - d.0 < NUMBERS
    requires WireNumber(d.1) == s.device.expected % NUMBERS
    ensures d.0 == s.device.expected == s.host.Next() - 1
    ensures Packet(d.1[0], d.1[1], d.1[HEADER_SIZE..]) == s.host.Current()
  {
    assert RequestOk(d, s.host);
    SameNumber(d.0, s.device.expected);
    DatagramFields(d.0, s.host.Current());
  }

  lemma ProcessKeepsInv(s: System, d: InFlight, answer: seq<Byte>, s': System)
    requires SysInv(s) && Next(s, Process(d, answer), s')
    ensures SysInv(s')
  {
    if WireNumber(d.1) == s.device.expected % NUMBERS {
      ProcessedRequestIsCurrent(s, d);
      assert Numbered((s.device.expected, answer));
      var k := s.device.expected - s.host.first;
      assert s.host.issued[..k] + [s.host.issued[k]] == s.host.issued[..k + 1];
    }
  }

  lemma NextKeepsInv(s: System, m: Move, s': System)
    requires SysInv(s) && Next(s, m, s')
    ensures SysInv(s')
  {
    match m
    case Local(e) => HostMoveKeepsInv(s, e, s');
    case Transmit(b) => TransmitKeepsInv(s, b, s');
    case Deliver(d, e) =>
      if e.Accepted? { AcceptedReplyIsCurrent(s, d, e); }
      HostMoveKeepsInv(s, e, s');
    case Process(d, answer) => ProcessKeepsInv(s, d, answer, s');
  }

  ghost predicate IsRun(states: seq<System>, moves: seq<Move>) {
    && |states| == |moves| + 1
    && Init(states[0])
    && forall i :: 0 <= i < |moves| ==> Next(states[i], moves[i], states[i + 1])
  }

  lemma {:induction false} RunKeepsSysInv(states: seq<System>, moves: seq<Move>, i: nat)
    requires IsRun(states, moves) && i < |states|
    ensures SysInv(states[i])
    decreases i
  {
    if i > 0 {
      RunKeepsSysInv(states, moves, i - 1);
      NextKeepsInv(states[i - 1], moves[i - 1], states[i]);
    }
  }

  function CallPayloads(moves: seq<Move>): seq<Byte> {
    if moves == [] then []
    else
      var m := moves[|moves| - 1];
      CallPayloads(moves[..|moves| - 1]) + (if m.Local? && m.e.Begin? then m.e.data else [])
  }

  lemma NextPayload(s: System, m: Move, s': System)
    requires Next(s, m, s')
    ensures s'.host.payload == s.host.payload + if m.Local? && m.e.Begin? then m.e.data else []
  {
  }

  /** `payload` is the concatenation of the payloads of the calls begun, in order. */
  lemma {:induction false} PayloadIsCallPayloads(states: seq<System>, moves: seq<Move>, i: nat)
    requires IsRun(states, moves) && i < |states|
    ensures states[i].host.payload == CallPayloads(moves[..i])
    decreases i
  {
    if i > 0 {
      PayloadIsCallPayloads(states, moves, i - 1);
      assert moves[..i][..i - 1] == moves[..i - 1];
      NextPayload(states[i - 1], moves[i - 1], states[i]);
    }
  }

  /** In every run, up to the first failed call: the packets the device has processed are the
      packets the host issued, each exactly once and in order, at most the one in flight missing;
      the bytes it has accepted are a prefix of the payloads of the calls begun; and whenever no
      call is in progress it has accepted all of them. */
  lemma DeviceAcceptsExactlyThePayloads(states: seq<System>, moves: seq<Move>, i: nat)
    requires IsRun(states, moves) && i < |states|
    ensures var h, dv := states[i].host, states[i].device;
            && dv.accepted <= h.issued && |h.issued| <= |dv.accepted| + 1
            && Data(dv.accepted) <= CallPayloads(moves[..i])
            && (h.phase.Idle? ==> dv.accepted == h.issued && Data(dv.accepted) == CallPayloads(moves[..i]))
  {
    hide Next, CallPayloads;
    RunKeepsSysInv(states, moves, i);
    PayloadIsCallPayloads(states, moves, i);
    AcceptedIsPrefix(states[i]);
  }

  lemma AcceptedIsPrefix(s: System)
    requires SysInv(s)
    ensures var h, dv := s.host, s.device;
            && dv.accepted <= h.issued && |h.issued| <= |dv.accepted| + 1
            && Data(dv.accepted) <= h.payload
            && (h.phase.Idle? ==> dv.accepted == h.issued && Data(dv.accepted) == h.payload)
  {
    DataPrefix(s.host.issued, |s.device.accepted|);
  }

  /** And in the other direction: the replies the host has accepted are the device's answers, each
      exactly once and in order, cut only if one exceeds the negotiated size. */
  lemma HostHearsExactlyTheAnswers(states: seq<System>, moves: seq<Move>, i: nat)
    requires IsRun(states, moves) && i < |states|
    requires forall a <- states[i].device.answers :: |a| <= states[i].host.maxData + HEADER_SIZE
    ensures states[i].host.heard <= states[i].device.answers
    ensures states[i].host.phase.Idle? ==> states[i].host.heard == states[i].device.answers
  {
    RunKeepsSysInv(states, moves, i);
    var h, dv := states[i].host, states[i].device;
    assert forall k :: 0 <= k < |h.heard| ==> h.heard[k] == dv.answers[k];
  }

  function HostEvents(s: System, m: Move): seq<Event> {
    match m
    case Local(e) => [e]
    case Transmit(b) => [Sent(s.host.Next() - 1, b)]
    case Deliver(_, e) => [e]
    case Process(_, _) => []
  }

  function HostLog(states: seq<System>, moves: seq<Move>): seq<Event>
    requires |states| > |moves|
  {
    if moves == [] then []
    else HostLog(states, moves[..|moves| - 1]) + HostEvents(states[|moves| - 1], moves[|moves| - 1])
  }

  /** The host's part of a run is a run of the host machine, so everything proved about its logs
      holds here. */
  lemma {:induction false} HostPartIsHostRun(states: seq<System>, moves: seq<Move>, i: nat)
    requires IsRun(states, moves) && i < |states|
    ensures Reaches(states[0].host.first, states[0].host.maxData, HostLog(states, moves[..i]), states[i].host)
    decreases i
  {
    if i > 0 {
      HostPartIsHostRun(states, moves, i - 1);
      assert moves[..i][..i - 1] == moves[..i - 1];
      assert Next(states[i - 1], moves[i - 1], states[i]);
      var log0 := HostLog(states, moves[..i - 1]);
      if !moves[i - 1].Process? {
        RunSnoc(Start(states[0].host.first, states[0].host.maxData), log0, HostEvents(states[i - 1], moves[i - 1])[0]);
      } else {
        assert log0 + [] == log0;
      }
    }
  }

  /** If what a host did is the host's part of a system run, then between calls the device has accepted
      exactly the payloads of its log, and in every state a prefix of them. */
  lemma LogIsAccepted(states: seq<System>, moves: seq<Move>, log: seq<Event>, h: Host)
    requires IsRun(states, moves) && HostLog(states, moves) == log
    requires Reaches(states[0].host.first, states[0].host.maxData, log, h)
    ensures var accepted := Data(states[|moves|].device.accepted);
            accepted <= Payloads(log) && (h.phase.Idle? ==> accepted == Payloads(log))
  {
    hide Run, Data, HostLog, Next, Init, Payloads, CallPayloads;
    var n := |moves|;
    assert moves[..n] == moves;
    HostPartIsHostRun(states, moves, n);
    DeviceAcceptsExactlyThePayloads(states, moves, n);
    PayloadIsCallPayloads(states, moves, n);
    PayloadOfLog(states[0].host.first, states[0].host.maxData, log, h);
  }
}
