/** The datagram format of the fastboot UDP protocol. */
module UdpWire {
  import opened Bytes

  const HEADER_SIZE: nat := 4
  const MIN_PACKET_SIZE: nat := 512
  const HOST_MAX_PACKET_SIZE: nat := 8192
  const PROTOCOL_VERSION: nat := 1
  const MAX_CONNECT_ATTEMPTS: nat := 4
  const MAX_TRANSMISSION_ATTEMPTS: nat := 120

  const ID_ERROR: Byte := 0
  const ID_DEVICE_QUERY: Byte := 1
  const ID_INITIALIZATION: Byte := 2
  const ID_FASTBOOT: Byte := 3

  const FLAG_NONE: Byte := 0
  const FLAG_CONTINUATION: Byte := 1

  /** Sequence numbers travel as 16 bits. */
  const NUMBERS: nat := 65536

  function ExtractUint16(b: seq<Byte>): nat
    requires |b| >= 2
  {
    b[0] as int * 256 + b[1]
  }

  /** `sequence` is the host's wide counter; only its low 16 bits are sent, high byte first. */
  function HeaderBytes(id: Byte, sequence: int, flag: Byte): (h: seq<Byte>)
    ensures |h| == HEADER_SIZE
  {
    [id, flag, sequence % NUMBERS / 256, sequence % 256]
  }

  predicate Matches(header: seq<Byte>, response: seq<Byte>)
    requires |header| >= HEADER_SIZE && |response| >= HEADER_SIZE
  {
    header[2] == response[2] && header[3] == response[3] &&
    (header[0] == response[0] || response[0] == ID_ERROR)
  }

  predicate Continues(packet: seq<Byte>)
    requires |packet| >= HEADER_SIZE
  {
    packet[1] % 2 == 1
  }

  function WireNumber(packet: seq<Byte>): nat
    requires |packet| >= HEADER_SIZE
  {
    ExtractUint16(packet[2..4])
  }

  lemma LowByte(n: int)
    ensures n % 256 == n % 65536 % 256
  {
    var q := n / 65536;
    assert n == 256 * (256 * q) + n % 65536;
    assert (n - 256 * (256 * q)) % 256 == n % 256 by { RemainderShift(n, -256 * q); }
  }

  lemma {:induction false} RemainderShift(n: int, k: int)
    ensures (n + 256 * k) % 256 == n % 256
    decreases if k < 0 then -k else k
  {
    if k > 0 {
      RemainderShift(n, k - 1);
      assert n + 256 * k == n + 256 * (k - 1) + 256;
    } else if k < 0 {
      RemainderShift(n, k + 1);
      assert n + 256 * k == n + 256 * (k + 1) - 256;
    }
  }

  lemma HeaderCarriesNumber(id: Byte, n: int, flag: Byte, data: seq<Byte>)
    ensures WireNumber(HeaderBytes(id, n, flag) + data) == n % NUMBERS
  {
    LowByte(n);
    var b := (HeaderBytes(id, n, flag) + data)[2..4];
    assert b[0] as int == n % 65536 / 256 && b[1] as int == n % 256;
  }

  /** A reply matches a header exactly when it carries the same number modulo 65536 and either
      the same id or the error id. */
  lemma MatchesIff(id: Byte, n: int, flag: Byte, reply: seq<Byte>)
    requires |reply| >= HEADER_SIZE
    ensures Matches(HeaderBytes(id, n, flag), reply)
            <==> WireNumber(reply) == n % NUMBERS && (reply[0] == id || reply[0] == ID_ERROR)
  {
    HeaderCarriesNumber(id, n, flag, []);
    var h := HeaderBytes(id, n, flag);
    assert h + [] == h;
    assert reply[2..4][0] == reply[2] && reply[2..4][1] == reply[3];
  }

  /** Two numbers less than 65536 apart that look equal on the wire are equal. */
  lemma SameNumber(m: int, n: int)
    requires m <= n < m + NUMBERS
    requires m % NUMBERS == n % NUMBERS
    ensures m == n
  {
  }

  datatype Packet = Packet(id: Byte, flag: Byte, data: seq<Byte>)

  function Datagram(n: int, p: Packet): seq<Byte> {
    HeaderBytes(p.id, n, p.flag) + p.data
  }

  /** A packet announces more exactly if the continuation bit is among its flags. */
  lemma FlagsMean(n: int, id: Byte, flag: Byte, d: seq<Byte>)
    ensures Continues(Datagram(n, Packet(id, flag, d))) <==> And(flag, FLAG_CONTINUATION) != 0
    ensures Continues(Datagram(n, Packet(id, FLAG_CONTINUATION, d)))
    ensures !Continues(Datagram(n, Packet(id, FLAG_NONE, d)))
  {
    assert And(flag / 2, 0) == 0;
  }

  function Data(ps: seq<Packet>): (d: seq<Byte>) {
    if ps == [] then [] else Data(ps[..|ps| - 1]) + ps[|ps| - 1].data
  }

  lemma DataSnoc(ps: seq<Packet>, p: Packet)
    ensures Data(ps + [p]) == Data(ps) + p.data
  {
    assert (ps + [p])[..|ps|] == ps;
  }

  lemma {:induction false} DataPrefix(ps: seq<Packet>, k: nat)
    requires k <= |ps|
    ensures Data(ps[..k]) <= Data(ps)
  {
    if k < |ps| {
      DataPrefix(ps[..|ps| - 1], k);
      assert ps[..|ps| - 1][..k] == ps[..k];
    } else {
      assert ps[..k] == ps;
    }
  }

  /** How a call's payload is cut into packets. */
  function Chunks(id: Byte, data: seq<Byte>, maxData: nat): (ps: seq<Packet>)
    requires maxData > 0
    decreases |data|
  {
    if |data| > maxData then
      [Packet(id, FLAG_CONTINUATION, data[..maxData])] + Chunks(id, data[maxData..], maxData)
    else
      [Packet(id, FLAG_NONE, data)]
  }

  ghost predicate CutOf(ps: seq<Packet>, id: Byte, data: seq<Byte>, maxData: nat) {
    && |ps| >= 1
    && Data(ps) == data
    && (forall i :: 0 <= i < |ps| ==> ps[i].id == id && |ps[i].data| <= maxData)
    && (forall i :: 0 <= i < |ps| - 1 ==> ps[i].flag == FLAG_CONTINUATION && |ps[i].data| == maxData)
    && ps[|ps| - 1].flag == FLAG_NONE
    && (data != [] ==> ps[|ps| - 1].data != [])
  }

  /** The packets carry the payload, full ones first, and all but the last announce more. */
  lemma {:induction false} ChunksCutThePayload(id: Byte, data: seq<Byte>, maxData: nat)
    requires maxData > 0
    ensures CutOf(Chunks(id, data, maxData), id, data, maxData)
    decreases |data|
  {
    if |data| > maxData {
      ChunksCutThePayload(id, data[maxData..], maxData);
      CutCons(id, data, maxData, Chunks(id, data[maxData..], maxData));
    } else {
      var p := Packet(id, FLAG_NONE, data);
      DataSnoc([], p);
      assert [] + [p] == [p];
    }
  }

  lemma CutCons(id: Byte, data: seq<Byte>, maxData: nat, rest: seq<Packet>)
    requires 0 < maxData < |data| && CutOf(rest, id, data[maxData..], maxData)
    ensures CutOf([Packet(id, FLAG_CONTINUATION, data[..maxData])] + rest, id, data, maxData)
  {
    var p := Packet(id, FLAG_CONTINUATION, data[..maxData]);
    DataCons(p, rest);
    assert data == data[..maxData] + data[maxData..];
  }

  lemma {:induction false} DataCons(p: Packet, ps: seq<Packet>)
    ensures Data([p] + ps) == p.data + Data(ps)
  {
    if ps == [] {
      DataSnoc([], p);
      assert [] + [p] == [p] + ps;
    } else {
      var init := ps[..|ps| - 1];
      DataCons(p, init);
      assert [p] + ps == ([p] + init) + [ps[|ps| - 1]];
      DataSnoc([p] + init, ps[|ps| - 1]);
    }
  }
}

/** The host half of the protocol as a step machine over socket events. One event is one thing
    that the sending loops do or observe; `Step` is undefined on an event that the loops cannot
    produce in that state. A failed call is final. */
module UdpHost {
  import opened Bytes
  import opened UdpWire

  datatype Phase = Idle | Sending | Waiting | Failed

  datatype Host = Host(
    first: int,             // number given to the first packet
    maxData: nat,           // negotiated payload bytes per datagram
    phase: Phase,
    id: Byte,               // the call in progress: its id,
    rest: seq<Byte>,        //   payload not yet cut into packets,
    attempts: nat,          //   transmissions allowed per number,
    left: nat,              //   and those left for the current number
    got: seq<Byte>,         // reply payload collected by the call
    issued: seq<Packet>,    // history: the packet of number first + i is issued[i]
    heard: seq<seq<Byte>>,  // history: the replies accepted, one per number
    chunks: seq<Packet>,    // history: payload packets of the call
    payload: seq<Byte>)     // history: payloads of all calls begun
  {
    function Next(): int { first + |issued| }
    predicate Active() { phase.Sending? || phase.Waiting? }
    function Current(): Packet requires issued != [] { issued[|issued| - 1] }
  }

  datatype Event =
    | Begin(id: Byte, data: seq<Byte>, attempts: nat)
    | Sent(number: int, bytes: seq<Byte>)
    | SendFailed
    | TimedOut
    | ReceiveFailed
    | Short(bytes: seq<Byte>)
    | Ignored(bytes: seq<Byte>)
    | Accepted(bytes: seq<Byte>)

  function Start(first: int, maxData: nat): Host {
    Host(first, maxData, Idle, ID_FASTBOOT, [], 0, 0, [], [], [], [], [])
  }

  function NextChunk(id: Byte, rest: seq<Byte>, maxData: nat): (p: Packet)
    ensures p.data <= rest && |p.data| <= maxData
  {
    if |rest| > maxData then Packet(id, FLAG_CONTINUATION, rest[..maxData]) else Packet(id, FLAG_NONE, rest)
  }

  /** Gives the next number to the next piece of the payload. */
  function IssueChunk(h: Host): Host {
    var p := NextChunk(h.id, h.rest, h.maxData);
    h.(phase := Sending, left := h.attempts, rest := h.rest[|p.data|..],
       issued := h.issued + [p], chunks := h.chunks + [p])
  }

  /** Gives the next number to an empty packet that prompts for more reply data. */
  function IssuePrompt(h: Host, id: Byte): Host {
    h.(phase := Sending, left := h.attempts, issued := h.issued + [Packet(id, FLAG_NONE, [])])
  }

  /** Records an accepted reply and keeps its payload unless it reports an error. */
  function Hear(h: Host, reply: seq<Byte>): Host
    requires |reply| >= HEADER_SIZE
  {
    h.(heard := h.heard + [reply],
       got := if reply[0] == ID_ERROR then h.got else h.got + reply[HEADER_SIZE..])
  }

  function Accept(h: Host, reply: seq<Byte>): Host
    requires |reply| >= HEADER_SIZE
  {
    var h1 := Hear(h, reply);
    if Continues(reply) then IssuePrompt(h1, reply[0])
    else if reply[0] == ID_ERROR then h1.(phase := Failed)
    else if h1.rest != [] then IssueChunk(h1)
    else h1.(phase := Idle)
  }

  function CurrentMatches(h: Host, reply: seq<Byte>): bool
    requires h.issued != [] && |reply| >= HEADER_SIZE
  {
    Matches(HeaderBytes(h.Current().id, h.Next() - 1, h.Current().flag), reply)
  }

  function Step(h: Host, e: Event): Option<Host> {
    match e
    case Begin(id, data, attempts) =>
      if h.phase.Idle? && id != ID_ERROR && attempts > 0 then
        Some(IssueChunk(h.(id := id, rest := data, attempts := attempts, got := [], chunks := [],
                           payload := h.payload + data)))
      else None
    case Sent(n, b) =>
      if h.phase.Sending? && h.issued != [] && n == h.Next() - 1 && b == Datagram(n, h.Current())
      then Some(h.(phase := Waiting)) else None
    case SendFailed =>
      if h.phase.Sending? then Some(h.(phase := Failed)) else None
    case TimedOut =>
      if h.phase.Waiting? && h.left > 0 then
        Some(h.(left := h.left - 1, phase := if h.left == 1 then Failed else Sending))
      else None
    case ReceiveFailed =>
      if h.phase.Waiting? then Some(h.(phase := Failed)) else None
    case Short(b) =>
      if h.phase.Waiting? && |b| < HEADER_SIZE then Some(h.(phase := Failed)) else None
    case Ignored(b) =>
      if h.phase.Waiting? && h.issued != [] && |b| >= HEADER_SIZE && !CurrentMatches(h, b)
      then Some(h) else None
    case Accepted(b) =>
      if h.phase.Waiting? && h.issued != [] && |b| >= HEADER_SIZE && CurrentMatches(h, b)
      then Some(Accept(h, b)) else None
  }

  function Run(h: Host, log: seq<Event>): Option<Host> {
    if log == [] then Some(h)
    else
      var before := Run(h, log[..|log| - 1]);
      if before.None? then None else Step(before.value, log[|log| - 1])
  }

  /** A waiting host has exactly one thing to do with what it receives: fail if there is no whole header,
      pass over what does not match, and accept the rest. */
  lemma OneReading(h: Host, b: seq<Byte>)
    requires h.phase.Waiting? && h.issued != []
    ensures Step(h, Short(b)).Some? <==> Step(h, Ignored(b)).None? && Step(h, Accepted(b)).None?
    ensures Step(h, Ignored(b)).None? || Step(h, Accepted(b)).None?
    ensures Step(h, Short(b)).Some? ==> Step(h, Short(b)).value.phase.Failed?
  {
  }

  lemma RunSnoc(h: Host, log: seq<Event>, e: Event)
    requires Run(h, log).Some?
    ensures Run(h, log + [e]) == Step(Run(h, log).value, e)
  {
    assert (log + [e])[..|log|] == log;
  }

  // ------------------------------------------------------------ what a log records

  function Payloads(log: seq<Event>): seq<Byte> {
    if log == [] then []
    else
      var e := log[|log| - 1];
      Payloads(log[..|log| - 1]) + (if e.Begin? then e.data else [])
  }

  /** Payload of the non-error replies accepted since the last call began. */
  function RepliesSinceBegin(log: seq<Event>): seq<Byte> {
    if log == [] || log[|log| - 1].Begin? then []
    else
      var e := log[|log| - 1];
      RepliesSinceBegin(log[..|log| - 1]) +
      (if e.Accepted? && |e.bytes| >= HEADER_SIZE && e.bytes[0] != ID_ERROR then e.bytes[HEADER_SIZE..] else [])
  }

  predicate ErrorSinceBegin(log: seq<Event>) {
    log != [] && !log[|log| - 1].Begin? &&
    (ErrorSinceBegin(log[..|log| - 1]) ||
     (var e := log[|log| - 1]; e.Accepted? && |e.bytes| >= HEADER_SIZE && e.bytes[0] == ID_ERROR))
  }

  function Transmissions(log: seq<Event>, n: int): nat {
    if log == [] then 0
    else
      Transmissions(log[..|log| - 1], n) +
      (if log[|log| - 1].Sent? && log[|log| - 1].number == n then 1 else 0)
  }

  function Accepts(log: seq<Event>): nat {
    if log == [] then 0 else Accepts(log[..|log| - 1]) + (if log[|log| - 1].Accepted? then 1 else 0)
  }

  // ------------------------------------------------------------ invariants of every run

  ghost predicate PacketsFit(ps: seq<Packet>, maxData: nat) {
    forall i :: 0 <= i < |ps| ==> |ps[i].data| <= maxData
  }

  ghost predicate Inv(h: Host) {
    && h.maxData > 0
    && (h.Active() ==> h.issued != [] && h.chunks != [] && 0 < h.left <= h.attempts)
    && Data(h.issued) + h.rest == h.payload
    && PacketsFit(h.issued, h.maxData)
    && (h.phase.Idle? ==> h.rest == [] && |h.heard| == |h.issued|)
    && (h.Active() ==> |h.heard| + 1 == |h.issued|)
    && |h.heard| <= |h.issued|
  }

  lemma IssueChunkKeepsInv(h: Host)
    requires h.maxData > 0 && h.attempts > 0
    requires Data(h.issued) + h.rest == h.payload
    requires PacketsFit(h.issued, h.maxData) && |h.heard| == |h.issued|
    ensures Inv(IssueChunk(h))
  {
    var p := NextChunk(h.id, h.rest, h.maxData);
    DataSnoc(h.issued, p);
    CutAppend(Data(h.issued), p.data, h.rest);
  }

  lemma CutAppend(a: seq<Byte>, p: seq<Byte>, b: seq<Byte>)
    requires p <= b
    ensures a + p + b[|p|..] == a + b
  {
    assert b == p + b[|p|..];
  }

  lemma IssuePromptKeepsInv(h: Host, id: Byte)
    requires h.maxData > 0 && h.attempts > 0 && h.chunks != []
    requires Data(h.issued) + h.rest == h.payload
    requires PacketsFit(h.issued, h.maxData) && |h.heard| == |h.issued|
    ensures Inv(IssuePrompt(h, id))
  {
    DataSnoc(h.issued, Packet(id, FLAG_NONE, []));
  }

  lemma AcceptKeepsInv(h: Host, reply: seq<Byte>)
    requires Inv(h) && h.phase.Waiting? && |reply| >= HEADER_SIZE
    ensures Inv(Accept(h, reply))
  {
    var h1 := Hear(h, reply);
    if Continues(reply) {
      IssuePromptKeepsInv(h1, reply[0]);
    } else if reply[0] != ID_ERROR && h1.rest != [] {
      IssueChunkKeepsInv(h1);
    }
  }

  lemma StepKeepsInv(h: Host, e: Event)
    requires Inv(h) && Step(h, e).Some?
    ensures Inv(Step(h, e).value)
  {
    match e
    case Begin(id, data, attempts) =>
      assert Data(h.issued) + h.rest + data == h.payload + data;
      IssueChunkKeepsInv(h.(id := id, rest := data, attempts := attempts, got := [], chunks := [],
                            payload := h.payload + data));
    case Accepted(b) => AcceptKeepsInv(h, b);
    case _ =>
  }
}
