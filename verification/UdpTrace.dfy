/** Properties of every log the host machine can produce, up to the first failed call. */
module UdpTrace {
  import opened Bytes
  import opened UdpWire
  import opened UdpHost

  /** `log` is a run of the host from its first number `first`, ending in state `h`. */
  ghost predicate Reaches(first: int, maxData: nat, log: seq<Event>, h: Host) {
    maxData > 0 && Run(Start(first, maxData), log) == Some(h)
  }

  /** The last event of a non-empty run and the state before it. */
  lemma Unstep(first: int, maxData: nat, log: seq<Event>, h: Host)
    returns (log0: seq<Event>, h0: Host, e: Event)
    requires Reaches(first, maxData, log, h) && log != []
    ensures log0 == log[..|log| - 1] && e == log[|log| - 1] && log == log0 + [e]
    ensures Reaches(first, maxData, log0, h0) && Step(h0, e) == Some(h)
  {
    log0 := log[..|log| - 1];
    e := log[|log| - 1];
    h0 := Run(Start(first, maxData), log0).value;
  }

  lemma AtStart(first: int, maxData: nat, log: seq<Event>, h: Host)
    requires Reaches(first, maxData, log, h) && log == []
    ensures h == Start(first, maxData)
  {
  }

  lemma {:induction false} RunKeepsInv(first: int, maxData: nat, log: seq<Event>, h: Host)
    requires Reaches(first, maxData, log, h)
    ensures Inv(h) && h.first == first && h.maxData == maxData
    decreases |log|
  {
    hide Run;
    if log == [] {
      AtStart(first, maxData, log, h);
    } else {
      var log0, h0, e := Unstep(first, maxData, log, h);
      RunKeepsInv(first, maxData, log0, h0);
      StepKeepsInv(h0, e);
    }
  }

  lemma StepPayload(h: Host, e: Event)
    requires Step(h, e).Some?
    ensures Step(h, e).value.payload == h.payload + if e.Begin? then e.data else []
  {
  }

  /** What has been cut into packets so far, followed by what is left, is every payload begun. */
  lemma {:induction false} IssuedCarryPayloads(first: int, maxData: nat, log: seq<Event>, h: Host)
    requires Reaches(first, maxData, log, h)
    ensures Data(h.issued) + h.rest == Payloads(log)
    ensures h.phase.Idle? ==> Data(h.issued) == Payloads(log)
    decreases |log|
  {
    hide Run, Step, Data, PacketsFit;
    RunKeepsInv(first, maxData, log, h);
    if log == [] {
      AtStart(first, maxData, log, h);
    } else {
      var log0, h0, e := Unstep(first, maxData, log, h);
      IssuedCarryPayloads(first, maxData, log0, h0);
      RunKeepsInv(first, maxData, log0, h0);
      StepPayload(h0, e);
    }
  }

  lemma PayloadOfLog(first: int, maxData: nat, log: seq<Event>, h: Host)
    requires Reaches(first, maxData, log, h)
    ensures h.payload == Payloads(log)
  {
    hide Run, Reaches, Payloads, Data, PacketsFit;
    RunKeepsInv(first, maxData, log, h);
    IssuedCarryPayloads(first, maxData, log, h);
  }

  /** The numbers are in step: one packet has been issued per accepted reply, plus the one in
      flight. */
  lemma {:induction false} NumbersInStep(first: int, maxData: nat, log: seq<Event>, h: Host)
    requires Reaches(first, maxData, log, h)
    ensures h.Active() ==> |h.issued| == Accepts(log) + 1
    ensures h.phase.Idle? ==> |h.issued| == Accepts(log)
    ensures h.phase.Failed? ==> Accepts(log) <= |h.issued| <= Accepts(log) + 1
    decreases |log|
  {
    hide Run;
    if log == [] {
      AtStart(first, maxData, log, h);
    } else {
      var log0, h0, e := Unstep(first, maxData, log, h);
      NumbersInStep(first, maxData, log0, h0);
    }
  }

  /** Issued packets never change. */
  lemma StepExtendsIssued(h: Host, e: Event)
    requires Step(h, e).Some?
    ensures h.issued <= Step(h, e).value.issued && Step(h, e).value.first == h.first
    ensures |Step(h, e).value.issued| <= |h.issued| + 1
  {
  }

  ghost predicate SentIsIssued(e: Event, h: Host) {
    e.Sent? ==> h.first <= e.number < h.Next() && e.bytes == Datagram(e.number, h.issued[e.number - h.first])
  }

  lemma {:induction false} SentAreIssued(first: int, maxData: nat, log: seq<Event>, h: Host, i: nat)
    requires Reaches(first, maxData, log, h) && i < |log|
    ensures SentIsIssued(log[i], h)
    decreases |log|
  {
    hide Run;
    var log0, h0, e := Unstep(first, maxData, log, h);
    StepExtendsIssued(h0, e);
    RunKeepsInv(first, maxData, log0, h0);
    if i < |log0| {
      SentAreIssued(first, maxData, log0, h0, i);
    }
  }

  /** Retransmissions repeat the datagram byte for byte, and none exceeds the negotiated size. */
  lemma RetransmissionsAreIdentical(first: int, maxData: nat, log: seq<Event>, h: Host, i: nat, j: nat)
    requires Reaches(first, maxData, log, h) && i < |log| && j < |log|
    requires log[i].Sent? && log[j].Sent? && log[i].number == log[j].number
    ensures log[i].bytes == log[j].bytes
    ensures |log[i].bytes| <= HEADER_SIZE + maxData
  {
    SentAreIssued(first, maxData, log, h, i);
    SentAreIssued(first, maxData, log, h, j);
    RunKeepsInv(first, maxData, log, h);
  }

  lemma StepIsNumbered(h: Host, e: Event)
    requires Step(h, e).Some?
    ensures e.Sent? ==> e.number == h.Next() - 1
    ensures e.Accepted? ==> |e.bytes| >= HEADER_SIZE && WireNumber(e.bytes) == (h.Next() - 1) % NUMBERS
  {
    if e.Accepted? {
      MatchesIff(h.Current().id, h.Next() - 1, h.Current().flag, e.bytes);
    }
  }

  /** Each transmission carries the number given by the replies accepted before it, and each
      accepted reply matches the header in flight at that moment. */
  lemma {:induction false} NumberedByReplies(first: int, maxData: nat, log: seq<Event>, h: Host, i: nat)
    requires Reaches(first, maxData, log, h) && i < |log|
    ensures log[i].Sent? ==> log[i].number == first + Accepts(log[..i])
    ensures log[i].Accepted? ==>
              && |log[i].bytes| >= HEADER_SIZE
              && WireNumber(log[i].bytes) == (first + Accepts(log[..i])) % NUMBERS
    decreases |log|
  {
    hide Run;
    var log0, h0, e := Unstep(first, maxData, log, h);
    if i < |log0| {
      NumberedByReplies(first, maxData, log0, h0, i);
      assert log0[..i] == log[..i];
    } else {
      NumbersInStep(first, maxData, log0, h0);
      RunKeepsInv(first, maxData, log0, h0);
      StepIsNumbered(h0, e);
      assert e.Sent? || e.Accepted? ==> h0.Next() - 1 == first + Accepts(log0);
    }
  }

  lemma {:induction false} AcceptsBefore(log: seq<Event>, j: nat, m: nat) returns (k: nat)
    requires j <= |log| && m < Accepts(log[..j])
    ensures k < j && log[k].Accepted? && Accepts(log[..k]) == m
    decreases j
  {
    assert log[..j][..j - 1] == log[..j - 1];
    if m < Accepts(log[..j - 1]) {
      k := AcceptsBefore(log, j - 1, m);
    } else {
      k := j - 1;
    }
  }

  lemma {:induction false} AcceptsMonotone(log: seq<Event>, i: nat, j: nat)
    requires i <= j <= |log|
    ensures Accepts(log[..i]) <= Accepts(log[..j])
    decreases j
  {
    if i < j {
      AcceptsMonotone(log, i, j - 1);
      assert log[..j][..j - 1] == log[..j - 1];
    }
  }

  /** Stop and wait: before number n is sent, a reply matching number n - 1 was accepted; every
      transmission before that reply has a smaller number and every one after it has not. */
  lemma StopAndWait(first: int, maxData: nat, log: seq<Event>, h: Host, j: nat) returns (k: nat)
    requires Reaches(first, maxData, log, h) && j < |log| && log[j].Sent? && log[j].number > first
    ensures k < j && log[k].Accepted? && |log[k].bytes| >= HEADER_SIZE
    ensures WireNumber(log[k].bytes) == (log[j].number - 1) % NUMBERS
    ensures forall i :: 0 <= i < k && log[i].Sent? ==> log[i].number < log[j].number
    ensures forall i :: k < i < |log| && log[i].Sent? ==> log[i].number >= log[j].number
  {
    var n := log[j].number;
    NumberedByReplies(first, maxData, log, h, j);
    k := AcceptsBefore(log, j, n - first - 1);
    NumberedByReplies(first, maxData, log, h, k);
    forall i | 0 <= i < k && log[i].Sent?
      ensures log[i].number < n
    {
      NumberedByReplies(first, maxData, log, h, i);
      AcceptsMonotone(log, i, k);
    }
    forall i | k < i < |log| && log[i].Sent?
      ensures log[i].number >= n
    {
      NumberedByReplies(first, maxData, log, h, i);
      assert log[..k + 1][..k] == log[..k];
      AcceptsMonotone(log, k + 1, i);
    }
  }

  ghost predicate Budget(log: seq<Event>, h: Host) {
    && (h.phase.Sending? ==> Transmissions(log, h.Next() - 1) + h.left == h.attempts)
    && (h.phase.Waiting? ==> Transmissions(log, h.Next() - 1) + h.left == h.attempts + 1)
  }

  lemma {:induction false} UnusedNumbers(first: int, maxData: nat, log: seq<Event>, h: Host, n: int)
    requires Reaches(first, maxData, log, h) && n >= h.Next()
    ensures Transmissions(log, n) == 0
    decreases |log|
  {
    hide Run;
    if log == [] {
      AtStart(first, maxData, log, h);
    } else {
      var log0, h0, e := Unstep(first, maxData, log, h);
      StepExtendsIssued(h0, e);
      UnusedNumbers(first, maxData, log0, h0, n);
    }
  }

  lemma {:induction false} BudgetKept(first: int, maxData: nat, log: seq<Event>, h: Host)
    requires Reaches(first, maxData, log, h)
    ensures Budget(log, h)
    decreases |log|
  {
    hide Run;
    if log == [] {
      AtStart(first, maxData, log, h);
    } else {
      var log0, h0, e := Unstep(first, maxData, log, h);
      BudgetKept(first, maxData, log0, h0);
      RunKeepsInv(first, maxData, log0, h0);
      if h.Active() && h.Next() != h0.Next() {
        UnusedNumbers(first, maxData, log0, h0, h.Next() - 1);
      }
    }
  }

  /** Attempts allowed by the last call begun. */
  function LastAttempts(log: seq<Event>): nat {
    if log == [] then 0 else if log[|log| - 1].Begin? then log[|log| - 1].attempts else LastAttempts(log[..|log| - 1])
  }

  lemma {:induction false} AttemptsOfCall(first: int, maxData: nat, log: seq<Event>, h: Host)
    requires Reaches(first, maxData, log, h)
    ensures h.attempts == LastAttempts(log)
    decreases |log|
  {
    hide Run;
    if log == [] {
      AtStart(first, maxData, log, h);
    } else {
      var log0, h0, e := Unstep(first, maxData, log, h);
      AttemptsOfCall(first, maxData, log0, h0);
    }
  }

  /** A transmission of the number in flight belongs to the call in progress. */
  lemma {:induction false} SentInThisCall(first: int, maxData: nat, log: seq<Event>, h: Host, j: nat)
    requires Reaches(first, maxData, log, h) && j < |log| && log[j].Sent? && log[j].number == h.Next() - 1
    ensures LastAttempts(log[..j]) == LastAttempts(log)
    ensures forall i :: j <= i < |log| ==> !log[i].Begin?
    decreases |log|
  {
    hide Run;
    var log0, h0, e := Unstep(first, maxData, log, h);
    StepExtendsIssued(h0, e);
    if j < |log0| {
      assert log0[..j] == log[..j];
      SentAreIssued(first, maxData, log0, h0, j);
      RunKeepsInv(first, maxData, log0, h0);
      SentInThisCall(first, maxData, log0, h0, j);
    }
  }

  /** No number is transmitted more often than the call that sends it allows. */
  lemma {:induction false} TransmissionsBounded(first: int, maxData: nat, log: seq<Event>, h: Host, j: nat)
    requires Reaches(first, maxData, log, h) && j < |log| && log[j].Sent?
    ensures Transmissions(log, log[j].number) <= LastAttempts(log[..j])
    decreases |log|
  {
    hide Run;
    var log0, h0, e := Unstep(first, maxData, log, h);
    var n := log[j].number;
    if j < |log0| {
      assert log0[..j] == log[..j];
      TransmissionsBounded(first, maxData, log0, h0, j);
    } else {
      assert log[..j] == log0;
    }
    if e.Sent? && e.number == n {
      BudgetKept(first, maxData, log0, h0);
      RunKeepsInv(first, maxData, log0, h0);
      AttemptsOfCall(first, maxData, log0, h0);
      if j < |log0| {
        SentInThisCall(first, maxData, log0, h0, j);
      }
    }
  }

  function LastPayload(log: seq<Event>): seq<Byte> {
    if log == [] then [] else if log[|log| - 1].Begin? then log[|log| - 1].data else LastPayload(log[..|log| - 1])
  }

  lemma {:induction false} IssuedAfterBegin(first: int, maxData: nat, log: seq<Event>, h: Host)
    requires Reaches(first, maxData, log, h) && log != []
    ensures h.issued != []
    decreases |log|
  {
    hide Run;
    var log0, h0, e := Unstep(first, maxData, log, h);
    StepExtendsIssued(h0, e);
    if log0 != [] {
      IssuedAfterBegin(first, maxData, log0, h0);
    } else {
      AtStart(first, maxData, log0, h0);
    }
  }

  function LastId(log: seq<Event>): Byte {
    if log == [] then ID_FASTBOOT else if log[|log| - 1].Begin? then log[|log| - 1].id else LastId(log[..|log| - 1])
  }

  lemma IssueChunkFollowsCut(h: Host)
    requires h.maxData > 0
    ensures var h' := IssueChunk(h);
            h'.chunks + (if h'.rest == [] then [] else Chunks(h'.id, h'.rest, h'.maxData))
            == h.chunks + Chunks(h.id, h.rest, h.maxData)
  {
    var p := NextChunk(h.id, h.rest, h.maxData);
    if |h.rest| > h.maxData {
      assert Chunks(h.id, h.rest, h.maxData) == [p] + Chunks(h.id, h.rest[h.maxData..], h.maxData);
    } else {
      assert Chunks(h.id, h.rest, h.maxData) == [p];
    }
  }

  /** Pieces cut so far, followed by the cut of the rest. */
  function WholeCut(h: Host): seq<Packet>
    requires h.maxData > 0
  {
    h.chunks + if h.rest == [] then [] else Chunks(h.id, h.rest, h.maxData)
  }

  lemma StepFollowsCut(h0: Host, e: Event, h: Host)
    requires UdpHost.Inv(h0) && Step(h0, e) == Some(h)
    ensures h.maxData == h0.maxData
    ensures e.Begin? ==> h.id == e.id && WholeCut(h) == Chunks(e.id, e.data, h.maxData)
    ensures !e.Begin? ==> h.id == h0.id && WholeCut(h) == WholeCut(h0)
  {
    hide Chunks;
    match e
    case Begin(id, data, attempts) =>
      IssueChunkFollowsCut(h0.(id := id, rest := data, attempts := attempts, got := [], chunks := [],
                               payload := h0.payload + data));
    case Accepted(b) =>
      if !Continues(b) && b[0] != ID_ERROR && h0.rest != [] {
        IssueChunkFollowsCut(Hear(h0, b));
      }
    case _ =>
  }

  lemma {:induction false} ChunksFollowCut(first: int, maxData: nat, log: seq<Event>, h: Host)
    requires Reaches(first, maxData, log, h)
    ensures h.maxData > 0 && h.id == LastId(log)
    ensures log != [] ==> WholeCut(h) == Chunks(h.id, LastPayload(log), h.maxData)
    decreases |log|
  {
    hide Run, Step, WholeCut, Chunks, UdpHost.Inv;
    RunKeepsInv(first, maxData, log, h);
    if log == [] {
      AtStart(first, maxData, log, h);
    } else {
      var log0, h0, e := Unstep(first, maxData, log, h);
      ChunksFollowCut(first, maxData, log0, h0);
      RunKeepsInv(first, maxData, log0, h0);
      StepFollowsCut(h0, e, h);
      FirstIsBegin(first, maxData, log0, h0, e);
    }
  }

  lemma FirstIsBegin(first: int, maxData: nat, log: seq<Event>, h: Host, e: Event)
    requires Reaches(first, maxData, log, h) && Step(h, e).Some?
    ensures log == [] ==> e.Begin?
  {
    if log == [] {
      AtStart(first, maxData, log, h);
    }
  }

  // ------------------------------------------------------------ what a call puts on the wire

  function PacketIn(bytes: seq<Byte>): Packet
    requires |bytes| >= HEADER_SIZE
  {
    Packet(bytes[0], bytes[1], bytes[HEADER_SIZE..])
  }

  lemma PacketInDatagram(n: int, p: Packet)
    ensures |Datagram(n, p)| >= HEADER_SIZE && PacketIn(Datagram(n, p)) == p
  {
  }

  /** The reply that asks for more data, if the last thing the call accepted is one. */
  function Prompting(log: seq<Event>): (r: Option<seq<Byte>>)
    ensures r.Some? ==> |r.value| >= HEADER_SIZE && Continues(r.value)
  {
    if log == [] || log[|log| - 1].Begin? then None
    else
      var e := log[|log| - 1];
      if e.Accepted? then
        if |e.bytes| >= HEADER_SIZE && Continues(e.bytes) then Some(e.bytes) else None
      else Prompting(log[..|log| - 1])
  }

  /** The packets that the call in progress has put on the wire, each at its first transmission, without
      those that only prompt for more reply data. */
  function CallPackets(log: seq<Event>): seq<Packet> {
    if log == [] || log[|log| - 1].Begin? then []
    else
      var front, e := log[..|log| - 1], log[|log| - 1];
      CallPackets(front) +
      if e.Sent? && |e.bytes| >= HEADER_SIZE && Transmissions(front, e.number) == 0 && Prompting(front).None?
      then [PacketIn(e.bytes)] else []
  }

  /** What is in flight: the last packet of the payload, or the prompt that the reply asks for. */
  ghost predicate InFlightIs(log: seq<Event>, h: Host) {
    h.Active() ==>
      && h.issued != [] && h.chunks != []
      && var p := Prompting(log);
         h.Current() == if p.Some? then Packet(p.value[0], FLAG_NONE, []) else h.chunks[|h.chunks| - 1]
  }

  lemma {:induction false} InFlightKept(first: int, maxData: nat, log: seq<Event>, h: Host)
    requires Reaches(first, maxData, log, h)
    ensures InFlightIs(log, h)
    decreases |log|
  {
    hide Run;
    RunKeepsInv(first, maxData, log, h);
    if log == [] {
      AtStart(first, maxData, log, h);
    } else {
      var log0, h0, e := Unstep(first, maxData, log, h);
      InFlightKept(first, maxData, log0, h0);
    }
  }

  /** Every transmission after a continued reply is the empty prompt with that reply's id. */
  lemma PromptsAreEmpty(first: int, maxData: nat, log: seq<Event>, h: Host, i: nat)
    requires Reaches(first, maxData, log, h) && i < |log| && log[i].Sent? && Prompting(log[..i]).Some?
    ensures log[i].bytes == Datagram(log[i].number, Packet(Prompting(log[..i]).value[0], FLAG_NONE, []))
    decreases |log|
  {
    hide Run, Prompting;
    var log0, h0, e := Unstep(first, maxData, log, h);
    if i < |log0| {
      assert log0[..i] == log[..i];
      PromptsAreEmpty(first, maxData, log0, h0, i);
    } else {
      assert log[..i] == log0;
      InFlightKept(first, maxData, log0, h0);
    }
  }

  /** Every number that was answered was transmitted. */
  lemma {:induction false} EveryNumberTransmitted(first: int, maxData: nat, log: seq<Event>, h: Host, n: int)
    requires Reaches(first, maxData, log, h) && first <= n < first + Accepts(log)
    ensures Transmissions(log, n) >= 1
    decreases |log|
  {
    hide Run;
    var log0, h0, e := Unstep(first, maxData, log, h);
    if n < first + Accepts(log0) {
      EveryNumberTransmitted(first, maxData, log0, h0, n);
    } else {
      NumbersInStep(first, maxData, log0, h0);
      BudgetKept(first, maxData, log0, h0);
      RunKeepsInv(first, maxData, log0, h0);
    }
  }

  /** The packet in flight belongs to the payload and has not been on the wire yet. */
  ghost predicate Fresh(log: seq<Event>, h: Host) {
    h.Active() && Transmissions(log, h.Next() - 1) == 0 && Prompting(log).None?
  }

  /** The payload packets of the call that have been on the wire. */
  ghost predicate WireIsChunks(log: seq<Event>, h: Host) {
    if Fresh(log, h) then h.chunks != [] && CallPackets(log) == h.chunks[..|h.chunks| - 1]
    else h.phase.Failed? || CallPackets(log) == h.chunks
  }

  lemma WireSnoc(log: seq<Event>, e: Event, n: int)
    ensures Transmissions(log + [e], n) == Transmissions(log, n) + if e.Sent? && e.number == n then 1 else 0
    ensures CallPackets(log + [e]) ==
            if e.Begin? then []
            else if e.Sent? && |e.bytes| >= HEADER_SIZE && Transmissions(log, e.number) == 0
                    && Prompting(log).None? then
              CallPackets(log) + [PacketIn(e.bytes)]
            else CallPackets(log)
    ensures Prompting(log + [e]) ==
            if e.Begin? then None
            else if e.Accepted? then
              if |e.bytes| >= HEADER_SIZE && Continues(e.bytes) then Some(e.bytes) else None
            else Prompting(log)
  {
    assert (log + [e])[..|log|] == log && (log + [e])[|log|] == e;
  }

  lemma BeginOnWire(log0: seq<Event>, h0: Host, e: Event, h: Host)
    requires e.Begin? && Step(h0, e) == Some(h) && Transmissions(log0, h0.Next()) == 0
    ensures WireIsChunks(log0 + [e], h)
  {
    hide CallPackets, Prompting, Transmissions, Step;
    WireSnoc(log0, e, h0.Next());
    BeginIssuesOne(h0, e, h);
    assert h.chunks[..0] == [];
  }

  lemma BeginIssuesOne(h0: Host, e: Event, h: Host)
    requires e.Begin? && Step(h0, e) == Some(h)
    ensures |h.chunks| == 1 && h.Next() == h0.Next() + 1 && h.Active()
  {
  }

  lemma SentOnWire(log0: seq<Event>, h0: Host, e: Event, h: Host)
    requires e.Sent? && Step(h0, e) == Some(h) && InFlightIs(log0, h0) && WireIsChunks(log0, h0)
    ensures WireIsChunks(log0 + [e], h)
  {
    hide CallPackets, Prompting, Transmissions, Datagram;
    WireSnoc(log0, e, e.number);
    PacketInDatagram(e.number, h0.Current());
  }

  lemma AcceptedOnWire(log0: seq<Event>, h0: Host, e: Event, h: Host)
    requires e.Accepted? && Step(h0, e) == Some(h) && WireIsChunks(log0, h0)
    requires Transmissions(log0, h0.Next() - 1) > 0 && Transmissions(log0, h0.Next()) == 0
    ensures WireIsChunks(log0 + [e], h)
  {
    hide CurrentMatches, CallPackets, Prompting, Transmissions;
    WireSnoc(log0, e, h0.Next());
  }

  lemma OtherOnWire(log0: seq<Event>, h0: Host, e: Event, h: Host)
    requires !e.Begin? && !e.Sent? && !e.Accepted? && Step(h0, e) == Some(h) && WireIsChunks(log0, h0)
    ensures WireIsChunks(log0 + [e], h)
  {
    hide CurrentMatches, CallPackets, Prompting, Transmissions;
    WireSnoc(log0, e, h0.Next() - 1);
  }

  lemma Transmitted(first: int, maxData: nat, log: seq<Event>, h: Host)
    requires Reaches(first, maxData, log, h)
    ensures h.phase.Waiting? ==> Transmissions(log, h.Next() - 1) > 0
    ensures Transmissions(log, h.Next()) == 0
  {
    hide Run, Reaches, Transmissions;
    RunKeepsInv(first, maxData, log, h);
    BudgetKept(first, maxData, log, h);
    UnusedNumbers(first, maxData, log, h, h.Next());
  }

  lemma AcceptedWhileWaiting(h: Host, e: Event)
    requires e.Accepted? && Step(h, e).Some?
    ensures h.phase.Waiting?
  {
  }

  lemma {:induction false} ChunksOnWire(first: int, maxData: nat, log: seq<Event>, h: Host)
    requires Reaches(first, maxData, log, h)
    ensures WireIsChunks(log, h)
    decreases |log|
  {
    hide Run, WireIsChunks, Step, InFlightIs, Transmissions;
    if log == [] {
      NothingOnWire(first, maxData, log, h);
    } else {
      var log0, h0, e := Unstep(first, maxData, log, h);
      ChunksOnWire(first, maxData, log0, h0);
      Transmitted(first, maxData, log0, h0);
      if e.Begin? {
        BeginOnWire(log0, h0, e, h);
      } else if e.Sent? {
        InFlightKept(first, maxData, log0, h0);
        SentOnWire(log0, h0, e, h);
      } else if e.Accepted? {
        AcceptedWhileWaiting(h0, e);
        AcceptedOnWire(log0, h0, e, h);
      } else {
        OtherOnWire(log0, h0, e, h);
      }
    }
  }

  lemma NothingOnWire(first: int, maxData: nat, log: seq<Event>, h: Host)
    requires Reaches(first, maxData, log, h) && log == []
    ensures WireIsChunks(log, h)
  {
    AtStart(first, maxData, log, h);
  }

  /** A call that succeeded has put exactly the packets of its payload on the wire, in order, apart from
      prompts: they concatenate to the payload and all but the last carry the continuation flag. */
  lemma CompletedCallSentItsChunks(first: int, maxData: nat, log: seq<Event>, h: Host)
    requires Reaches(first, maxData, log, h) && h.phase.Idle? && log != []
    ensures maxData > 0 && CallPackets(log) == Chunks(LastId(log), LastPayload(log), maxData)
    ensures CutOf(CallPackets(log), LastId(log), LastPayload(log), maxData)
  {
    hide Run, CallPackets, Transmissions, Prompting, Chunks;
    ChunksFollowCut(first, maxData, log, h);
    RunKeepsInv(first, maxData, log, h);
    ChunksOnWire(first, maxData, log, h);
    ChunksCutThePayload(h.id, LastPayload(log), maxData);
  }

  /** A call collects exactly the payload of its non-error replies, and once an error reply is
      accepted the call can no longer succeed. */
  lemma {:induction false} RepliesCollected(first: int, maxData: nat, log: seq<Event>, h: Host)
    requires Reaches(first, maxData, log, h)
    ensures h.got == RepliesSinceBegin(log)
    ensures h.phase.Idle? ==> !ErrorSinceBegin(log)
    ensures h.Active() ==> h.issued != [] && h.id != ID_ERROR
    ensures h.Active() ==> (ErrorSinceBegin(log) <==> h.Current().id == ID_ERROR)
    decreases |log|
  {
    hide Run;
    if log == [] {
      AtStart(first, maxData, log, h);
    } else {
      var log0, h0, e := Unstep(first, maxData, log, h);
      RepliesCollected(first, maxData, log0, h0);
      RunKeepsInv(first, maxData, log0, h0);
      assert log == log0 + [e];
      if e.Accepted? {
        hide Step, Accept, Inv;
        CollectedByReply(h0, e.bytes, h, ErrorSinceBegin(log0));
      }
    }
  }

  lemma CollectedByReply(h0: Host, b: seq<Byte>, h: Host, error: bool)
    requires Step(h0, Accepted(b)) == Some(h) && h0.id != ID_ERROR && (error <==> h0.Current().id == ID_ERROR)
    ensures |b| >= HEADER_SIZE && h.got == h0.got + if b[0] != ID_ERROR then b[HEADER_SIZE..] else []
    ensures h.phase.Idle? ==> !error && b[0] != ID_ERROR
    ensures h.Active() ==> h.issued != [] && h.id != ID_ERROR
    ensures h.Active() ==> (error || b[0] == ID_ERROR <==> h.Current().id == ID_ERROR)
  {
    MatchesIff(h0.Current().id, h0.Next() - 1, h0.Current().flag, b);
  }

  // ------------------------------------------------------------ replies in several packets

  /** The replies accepted since the last call began. */
  function RepliesOfCall(log: seq<Event>): seq<seq<Byte>> {
    if log == [] || log[|log| - 1].Begin? then []
    else
      RepliesOfCall(log[..|log| - 1]) + if log[|log| - 1].Accepted? then [log[|log| - 1].bytes] else []
  }

  /** The replies are the first datagrams, under any numbers, of a payload cut into packets. */
  ghost predicate RepliesCut(replies: seq<seq<Byte>>, id: Byte, payload: seq<Byte>, m: nat)
    requires m > 0
  {
    && |replies| <= |Chunks(id, payload, m)|
    && forall i :: 0 <= i < |replies| ==> IsDatagram(replies[i], Chunks(id, payload, m)[i])
  }

  ghost predicate IsDatagram(bytes: seq<Byte>, p: Packet) {
    |bytes| >= HEADER_SIZE && bytes[0] == p.id && bytes[1] == p.flag && bytes[HEADER_SIZE..] == p.data
  }

  lemma ReplyContinues(bytes: seq<Byte>, p: Packet)
    requires IsDatagram(bytes, p) && (p.flag == FLAG_NONE || p.flag == FLAG_CONTINUATION)
    ensures Continues(bytes) <==> p.flag == FLAG_CONTINUATION
  {
    FlagsMean(0, p.id, p.flag, p.data);
  }

  /** Where a call stands that is being answered in packets. */
  ghost predicate Answered(log: seq<Event>, h: Host, id: Byte, payload: seq<Byte>, m: nat)
    requires m > 0
  {
    var cs, n := Chunks(id, payload, m), |RepliesOfCall(log)|;
    && h.rest == [] && n <= |cs| && h.got == Data(cs[..n])
    && (if n < |cs| then h.Active() || h.phase.Failed? else h.phase.Idle?)
  }

  lemma AcceptedAnswer(log: seq<Event>, h: Host, e: Event, h': Host, id: Byte, payload: seq<Byte>, m: nat)
    requires m > 0 && id != ID_ERROR && e.Accepted? && Step(h, e) == Some(h') && Answered(log, h, id, payload, m)
    requires RepliesCut(RepliesOfCall(log) + [e.bytes], id, payload, m)
    requires RepliesOfCall(log + [e]) == RepliesOfCall(log) + [e.bytes]
    ensures Answered(log + [e], h', id, payload, m)
  {
    hide Chunks, RepliesOfCall, CurrentMatches, Data;
    var cs, n := Chunks(id, payload, m), |RepliesOfCall(log)|;
    ChunksCutThePayload(id, payload, m);
    assert (RepliesOfCall(log) + [e.bytes])[n] == e.bytes;
    ReplyContinues(e.bytes, cs[n]);
    DataSnoc(cs[..n], cs[n]);
    assert cs[..n + 1] == cs[..n] + [cs[n]];
  }

  lemma OtherAnswer(log: seq<Event>, h: Host, e: Event, h': Host, id: Byte, payload: seq<Byte>, m: nat)
    requires m > 0 && !e.Accepted? && !e.Begin? && Step(h, e) == Some(h') && Answered(log, h, id, payload, m)
    requires RepliesOfCall(log + [e]) == RepliesOfCall(log)
    ensures Answered(log + [e], h', id, payload, m)
  {
    hide Chunks, RepliesOfCall, CurrentMatches, Data;
  }

  lemma BegunAnswer(log: seq<Event>, h: Host, e: Event, h': Host, id: Byte, payload: seq<Byte>, m: nat)
    requires m > 0 && e.Begin? && Step(h, e) == Some(h') && |e.data| <= h.maxData && RepliesOfCall(log + [e]) == []
    ensures Answered(log + [e], h', id, payload, m)
  {
    hide Chunks, RepliesOfCall;
    ChunksCutThePayload(id, payload, m);
    assert Chunks(id, payload, m)[..0] == [];
  }

  lemma RepliesSnoc(log: seq<Event>, e: Event)
    ensures RepliesOfCall(log + [e]) ==
            if e.Begin? then [] else if e.Accepted? then RepliesOfCall(log) + [e.bytes] else RepliesOfCall(log)
  {
    assert (log + [e])[..|log|] == log && (log + [e])[|log|] == e;
  }

  /** A call in one packet whose replies are the packets of a payload goes on until the last of them
      and then succeeds with exactly the payload. */
  lemma {:induction false} AnswerIsCollected(first: int, maxData: nat, log: seq<Event>, h: Host,
                                             id: Byte, payload: seq<Byte>, m: nat)
    requires Reaches(first, maxData, log, h) && log != [] && |LastPayload(log)| <= maxData
    requires m > 0 && id != ID_ERROR && RepliesCut(RepliesOfCall(log), id, payload, m)
    ensures var n := |Chunks(id, payload, m)|;
            && (|RepliesOfCall(log)| < n ==> h.Active() || h.phase.Failed?)
            && (|RepliesOfCall(log)| == n ==> h.phase.Idle? && h.got == payload)
    ensures Answered(log, h, id, payload, m)
    decreases |log|
  {
    hide Run, Step, Chunks, RepliesOfCall, Data;
    var log0, h0, e := Unstep(first, maxData, log, h);
    RunKeepsInv(first, maxData, log0, h0);
    RepliesSnoc(log0, e);
    FirstIsBegin(first, maxData, log0, h0, e);
    if e.Begin? {
      BegunAnswer(log0, h0, e, h, id, payload, m);
    } else {
      var rs := RepliesOfCall(log);
      assert forall i :: 0 <= i < |RepliesOfCall(log0)| ==> RepliesOfCall(log0)[i] == rs[i];
      AnswerIsCollected(first, maxData, log0, h0, id, payload, m);
      if e.Accepted? {
        AcceptedAnswer(log0, h0, e, h, id, payload, m);
      } else {
        OtherAnswer(log0, h0, e, h, id, payload, m);
      }
    }
    ChunksCutThePayload(id, payload, m);
    assert Chunks(id, payload, m)[..|Chunks(id, payload, m)|] == Chunks(id, payload, m);
  }
}
