/** Mounting every fstab entry: runs of entries with the same mount point are alternatives, and a run on a
    wiped, formattable partition is formatted and tried again. */
module MountAll {
  import opened Bytes

  datatype Entry = Entry(mountPoint: string, blkDevice: string, logical: bool, logicalName: string, formattable: bool)

  /** Behind the last entry of the run that contains `start`. */
  function RunEnd(fstab: seq<Entry>, start: nat): (e: nat)
    requires start < |fstab|
    ensures start < e <= |fstab|
    ensures forall i :: start <= i < e ==> fstab[i].mountPoint == fstab[start].mountPoint
    ensures e < |fstab| ==> fstab[e].mountPoint != fstab[start].mountPoint
    decreases |fstab| - start
  {
    if start + 1 < |fstab| && fstab[start + 1].mountPoint == fstab[start].mountPoint then RunEnd(fstab, start + 1)
    else start + 1
  }

  /** Entries differ in their devices only. */
  ghost predicate SamePoints(a: seq<Entry>, b: seq<Entry>) {
    |a| == |b| && forall i :: 0 <= i < |a| ==> a[i] == b[i].(blkDevice := a[i].blkDevice)
  }

  lemma {:induction false} RunEndSame(a: seq<Entry>, b: seq<Entry>, start: nat)
    requires SamePoints(a, b) && start < |a|
    ensures RunEnd(a, start) == RunEnd(b, start)
    decreases |a| - start
  {
    if start + 1 < |a| && a[start + 1].mountPoint == a[start].mountPoint {
      RunEndSame(a, b, start + 1);
    }
  }

  /** The system's side: answers to the questions asked, in order, and the partitions that hold no file
      system. Only a successful format changes the latter. Several devices can be on one partition. */
  class World {
    const answers: nat -> bool
    const names: nat -> string
    const partition: string -> string
    var asked: nat
    var wiped: set<string>
    ghost var attempts: seq<(nat, bool)>     // entries tried, with the result

    constructor (answers: nat -> bool, names: nat -> string, partition: string -> string, wiped: set<string>)
      ensures this.answers == answers && this.names == names && this.partition == partition
      ensures this.wiped == wiped && asked == 0 && attempts == []
    {
      this.answers, this.names, this.partition := answers, names, partition;
      this.wiped, asked, attempts := wiped, 0, [];
    }

    method Ask() returns (yes: bool)
      modifies this`asked
      ensures yes == answers(old(asked)) && asked == old(asked) + 1
    {
      yes := answers(asked);
      asked := asked + 1;
    }

    /** Label translation, logical partitions and verified boot may give an entry another device. */
    method SetUp(device: string) returns (r: string)
      modifies this`asked
      ensures r == (if answers(old(asked)) then names(old(asked)) else device) && asked == old(asked) + 1
    {
      var renamed := Ask();
      r := if renamed then names(asked - 1) else device;
    }

    /** Gives up a checkpoint device for the one below it, which is on the same partition. */
    method Revert(device: string) returns (r: string)
      modifies this`asked
      ensures partition(r) == partition(device) && asked == old(asked) + 1
      ensures r == Below(device, old(asked))
    {
      var mapped := Ask();
      r := if mapped && partition(names(asked - 1)) == partition(device) then names(asked - 1) else device;
    }

    ghost function Below(device: string, question: nat): string {
      if answers(question) && partition(names(question)) == partition(device) then names(question) else device
    }

    /** The superblock check and up to two mount calls with a repair between them: without a valid
        superblock there is no mount call, and a second one only if the first fails. */
    method TryEntry(i: nat) returns (ok: bool)
      modifies this`asked, this`attempts
      ensures attempts == old(attempts) + [(i, ok)]
      ensures var valid, first, second := answers(old(asked)), answers(old(asked) + 1), answers(old(asked) + 2);
              && (ok <==> valid && (first || second))
              && asked == old(asked) + if !valid then 1 else if first then 2 else 3
    {
      ok := false;
      var validMagic := Ask();
      if validMagic {
        var retries := 2;
        while retries > 0 && !ok
          invariant 0 <= retries <= 2 && attempts == old(attempts)
          invariant asked == old(asked) + 3 - retries
          invariant ok <==> retries < 2 && answers(asked - 1)
          invariant retries == 0 ==> !answers(old(asked) + 1)
        {
          ok := Ask();
          retries := retries - 1;
        }
      }
      attempts := attempts + [(i, ok)];
    }

    /** A format that succeeds leaves a file system behind. */
    method Format(device: string) returns (ok: bool)
      modifies this`asked, this`wiped
      ensures ok == answers(old(asked)) && asked == old(asked) + 1
      ensures wiped == if ok then old(wiped) - {partition(device)} else old(wiped)
    {
      ok := Ask();
      if ok { wiped := wiped - {partition(device)}; }
    }
  }

  /** Entries `start` up to `k` tried in order, all failing. */
  function Failures(start: nat, k: nat): seq<(nat, bool)> {
    if k <= start then [] else Failures(start, k - 1) + [(k - 1, false)]
  }

  /** Entry `j` once the alternatives before `end` were tried: a later alternative for the logical
      partition of the first is tried on the first one's device. */
  function Aliased(fstab: seq<Entry>, start: nat, end: nat, j: nat): Entry
    requires start < |fstab| && j < |fstab|
  {
    if start < j < end && fstab[start].logical && fstab[j].logical && fstab[j].logicalName == fstab[start].logicalName
    then fstab[j].(blkDevice := fstab[start].blkDevice)
    else fstab[j]
  }

  function AliasedAll(fstab: seq<Entry>, start: nat, end: nat): (r: seq<Entry>)
    requires start < |fstab|
    ensures |r| == |fstab| && forall j :: 0 <= j < |fstab| ==> r[j] == Aliased(fstab, start, end, j)
    ensures r[start] == fstab[start]
  {
    seq(|fstab|, j requires 0 <= j < |fstab| => Aliased(fstab, start, end, j))
  }

  lemma AliasedStart(fstab: seq<Entry>, start: nat)
    requires start < |fstab|
    ensures forall j :: 0 <= j < |fstab| ==> Aliased(fstab, start, start, j) == fstab[j]
  {
  }

  lemma AliasedNext(fstab: seq<Entry>, start: nat, i: nat)
    requires start < |fstab| && start <= i < |fstab|
    ensures forall j :: 0 <= j < |fstab| && j != i ==> Aliased(fstab, start, i + 1, j) == Aliased(fstab, start, i, j)
    ensures Aliased(fstab, start, i, i) == fstab[i] && Aliased(fstab, start, i, start) == fstab[start]
    ensures Aliased(fstab, start, i + 1, i) ==
            if i != start && fstab[i].logical && fstab[start].logical
               && fstab[i].logicalName == fstab[start].logicalName
            then fstab[i].(blkDevice := fstab[start].blkDevice)
            else fstab[i]
  {
  }

  lemma FailuresNext(start: nat, k: nat)
    requires start <= k
    ensures Failures(start, start) == [] && Failures(start, k + 1) == Failures(start, k) + [(k, false)]
  {
  }

  /** Tries the alternatives of one run in order and stops trying at the first that mounts. The last index
      looked at is the run's last entry, or the table's length if the run ends the table. */
  method MountWithAlternatives(w: World, fstab: seq<Entry>, start: nat)
    returns (mounted: bool, endIdx: nat, attempted: nat, r: seq<Entry>)
    requires start < |fstab|
    modifies w`asked, w`attempts
    ensures SamePoints(fstab, r) && w.asked >= old(w.asked)
    ensures var e := RunEnd(fstab, start);
            && endIdx == (if e < |fstab| then e - 1 else e)
            && start <= attempted < e
            && (if mounted then w.attempts == old(w.attempts) + Failures(start, attempted) + [(attempted, true)]
                else attempted == start && w.attempts == old(w.attempts) + Failures(start, e))
    ensures r == AliasedAll(fstab, start, if mounted then attempted + 1 else RunEnd(fstab, start))
  {
    hide Failures, Aliased;
    FailuresNext(start, start);
    AliasedStart(fstab, start);
    r := fstab;
    mounted, attempted := false, start;
    var i := start;
    while i < |r| && r[start].mountPoint == r[i].mountPoint
      invariant start <= i <= RunEnd(fstab, start) && SamePoints(fstab, r) && r[start] == fstab[start]
      invariant w.asked >= old(w.asked) && (i == start ==> !mounted)
      invariant if mounted then start <= attempted < i
                && w.attempts == old(w.attempts) + Failures(start, attempted) + [(attempted, true)]
                else attempted == start && w.attempts == old(w.attempts) + Failures(start, i)
      invariant forall j :: 0 <= j < |fstab| ==>
                  r[j] == Aliased(fstab, start, if mounted then attempted + 1 else i, j)
      decreases |fstab| - i
    {
      FailuresNext(start, i);
      AliasedNext(fstab, start, i);
      if !mounted {
        if i != start && r[i].logical && r[start].logical && r[i].logicalName == r[start].logicalName {
          r := r[i := r[i].(blkDevice := r[start].blkDevice)];
        }
        var ok := w.TryEntry(i);
        if ok { mounted, attempted := true, i; }
      }
      i := i + 1;
    }
    endIdx := if i < |r| then i - 1 else i;
    assert r == AliasedAll(fstab, start, if mounted then attempted + 1 else RunEnd(fstab, start));
  }

  datatype Result = Failed | Finished(errors: nat)

  /** How a visit ends. A failed run is sent to be formatted, where encryption may take over or the
      format may fail, or it is left. */
  datatype Outcome =
    | Mounted(index: nat)
    | Formatted(partition: string)
    | Encrypted
    | FormatFailed
    | Left(error: bool)

  /** One round of the loop: an entry passed over, or a run of alternatives tried from its entry `at`
      on. `question` is the number of the question whether to pass over, which the question whether
      opening fails follows, `verdict` that of the question whether a failure may be retried or a mount
      is fatal, and `device` what was tried. */
  datatype Visit =
    | Skipped(at: nat, question: nat)
    | Tried(at: nat, question: nat, end: nat, device: string, verdict: nat, outcome: Outcome)
  {
    /** Where the loop goes on: behind what was visited, or at the same entry after a format. */
    function After(): nat { if Skipped? then at + 1 else if outcome.Formatted? then at else end }

    predicate Ok(table: seq<Entry>) {
      && at < |table|
      && (Tried? ==> end == RunEnd(table, at) && (outcome.Mounted? ==> at <= outcome.index < end))
    }
  }

  function Position(visits: seq<Visit>): nat {
    if visits == [] then 0 else visits[|visits| - 1].After()
  }

  /** Visits follow one another through the table. */
  ghost predicate Trace(table: seq<Entry>, visits: seq<Visit>) {
    forall a :: 0 <= a < |visits| ==> visits[a].Ok(table) && visits[a].at == Position(visits[..a])
  }

  /** What the visits tried: every alternative in order up to the first that mounts. */
  function Attempts(visits: seq<Visit>): seq<(nat, bool)> {
    if visits == [] then []
    else
      var v := visits[|visits| - 1];
      Attempts(visits[..|visits| - 1]) + if v.Skipped? then [] else AttemptsOf(v.at, v.end, v.outcome)
  }

  function AttemptsOf(at: nat, end: nat, outcome: Outcome): seq<(nat, bool)> {
    if outcome.Mounted? then Failures(at, outcome.index) + [(outcome.index, true)] else Failures(at, end)
  }

  function Formats(visits: seq<Visit>): nat {
    if visits == [] then 0
    else
      var v := visits[|visits| - 1];
      Formats(visits[..|visits| - 1]) + if v.Tried? && v.outcome.Formatted? then 1 else 0
  }

  function Errors(visits: seq<Visit>): nat {
    if visits == [] then 0
    else
      var v := visits[|visits| - 1];
      Errors(visits[..|visits| - 1]) + if v.Tried? && v.outcome.Left? && v.outcome.error then 1 else 0
  }

  /** The partitions still wiped after the visits. */
  function WipedAfter(wiped: set<string>, visits: seq<Visit>): set<string> {
    if visits == [] then wiped
    else
      var v, rest := visits[|visits| - 1], WipedAfter(wiped, visits[..|visits| - 1]);
      if v.Tried? && v.outcome.Formatted? then rest - {v.outcome.partition} else rest
  }

  /** What becomes of a failed run: it is formatted exactly if the failure may be retried, the entry is
      formattable and its partition is wiped, unless encryption takes over or the format fails. */
  ghost function Fate(w: World, formattable: bool, device: string, verdict: nat, wiped: set<string>): Outcome {
    if w.answers(verdict) && formattable && w.partition(device) in wiped then
      if w.answers(verdict + 2) then Encrypted
      else if w.answers(verdict + 3) then Formatted(w.partition(device)) else FormatFailed
    else Left(!w.answers(verdict + 1))
  }

  /** The table after a visit: the entry has the device that was tried, or the one below it if it was to
      be formatted, and alternatives tried after it for the same logical partition have its device. */
  ghost function TableAfter(w: World, t: seq<Entry>, v: Visit): (r: seq<Entry>)
    ensures |r| == |t|
  {
    if v.Skipped? || v.at >= |t| then t
    else
      var renamed := t[v.at := t[v.at].(blkDevice := v.device)];
      var end := if v.outcome.Mounted? then v.outcome.index + 1 else v.end;
      var tried := AliasedAll(renamed, v.at, end);
      if v.outcome.Mounted? || v.outcome.Left? then tried
      else tried[v.at := tried[v.at].(blkDevice := w.Below(v.device, v.verdict + 1))]
  }

  lemma AfterMount(w: World, t: seq<Entry>, v: Visit, tried: seq<Entry>)
    requires v.Tried? && v.at < |t| && v.outcome.Mounted?
    requires tried == AliasedAll(t[v.at := t[v.at].(blkDevice := v.device)], v.at, v.outcome.index + 1)
    ensures TableAfter(w, t, v) == tried
  {
  }

  lemma AfterNoMount(w: World, t: seq<Entry>, v: Visit, tried: seq<Entry>, end: seq<Entry>)
    requires v.Tried? && v.at < |t| && !v.outcome.Mounted?
    requires tried == AliasedAll(t[v.at := t[v.at].(blkDevice := v.device)], v.at, v.end)
    requires end == if v.outcome.Left? then tried
                    else tried[v.at := tried[v.at].(blkDevice := w.Below(tried[v.at].blkDevice, v.verdict + 1))]
    ensures TableAfter(w, t, v) == end
  {
    hide Aliased;
  }

  /** The table after all visits. */
  ghost function Reached(w: World, table: seq<Entry>, visits: seq<Visit>): (r: seq<Entry>)
    ensures |r| == |table|
  {
    if visits == [] then table
    else TableAfter(w, Reached(w, table, visits[..|visits| - 1]), visits[|visits| - 1])
  }

  /** What is tried is the entry's device as the table has it by then, or the one it is given. */
  ghost predicate DeviceOf(w: World, t: seq<Entry>, v: Visit) {
    v.Tried? && v.at < |t| ==>
      v.device == if w.answers(v.question + 2) then w.names(v.question + 2) else t[v.at].blkDevice
  }

  ghost predicate DevicesOf(w: World, table: seq<Entry>, visits: seq<Visit>) {
    forall a :: 0 <= a < |visits| ==> DeviceOf(w, Reached(w, table, visits[..a]), visits[a])
  }

  lemma DevicesSnoc(w: World, table: seq<Entry>, visits: seq<Visit>, v: Visit)
    requires DevicesOf(w, table, visits) && DeviceOf(w, Reached(w, table, visits), v)
    ensures DevicesOf(w, table, visits + [v])
    ensures Reached(w, table, visits + [v]) == TableAfter(w, Reached(w, table, visits), v)
  {
    hide DeviceOf, TableAfter;
    var more := visits + [v];
    assert more[..|visits|] == visits;
    forall a | 0 <= a < |more|
      ensures DeviceOf(w, Reached(w, table, more[..a]), more[a])
    {
      if a < |visits| {
        assert more[..a] == visits[..a];
      }
    }
  }

  lemma NoDevices(w: World, table: seq<Entry>)
    ensures DevicesOf(w, table, []) && Reached(w, table, []) == table
  {
  }

  ghost predicate Decided(w: World, formattable: bool, v: Visit, wiped: set<string>) {
    v.Tried? ==>
      && (w.answers(v.question + 2) ==> v.device == w.names(v.question + 2))
      && (!v.outcome.Mounted? ==> v.outcome == Fate(w, formattable, v.device, v.verdict, wiped))
  }

  ghost predicate AllDecided(w: World, table: seq<Entry>, wiped: set<string>, visits: seq<Visit>) {
    forall a :: 0 <= a < |visits| ==>
      visits[a].at < |table| && Decided(w, table[visits[a].at].formattable, visits[a], WipedAfter(wiped, visits[..a]))
  }

  lemma DecidedSnoc(w: World, table: seq<Entry>, wiped: set<string>, visits: seq<Visit>, v: Visit)
    requires AllDecided(w, table, wiped, visits) && v.at < |table|
    requires Decided(w, table[v.at].formattable, v, WipedAfter(wiped, visits))
    ensures AllDecided(w, table, wiped, visits + [v])
    ensures WipedAfter(wiped, visits + [v]) ==
            WipedAfter(wiped, visits) - if v.Tried? && v.outcome.Formatted? then {v.outcome.partition} else {}
  {
    hide Decided;
    var more := visits + [v];
    assert more[..|visits|] == visits;
    forall a | 0 <= a < |more|
      ensures more[a].at < |table| && Decided(w, table[more[a].at].formattable, more[a], WipedAfter(wiped, more[..a]))
    {
      if a < |visits| {
        assert more[..a] == visits[..a];
      }
    }
  }

  /** Only a formattable entry on a wiped partition is ever formatted. */
  lemma FormatsOnlyWiped(w: World, table: seq<Entry>, wiped: set<string>, visits: seq<Visit>, a: nat)
    requires AllDecided(w, table, wiped, visits) && a < |visits| && visits[a].Tried? && visits[a].outcome.Formatted?
    ensures table[visits[a].at].formattable && visits[a].outcome.partition in wiped
    ensures visits[a].outcome.partition == w.partition(visits[a].device)
  {
    WipedShrinks(wiped, visits[..a]);
  }

  /** And no partition is formatted twice. */
  lemma FormatsOnce(w: World, table: seq<Entry>, wiped: set<string>, visits: seq<Visit>, a: nat, b: nat)
    requires AllDecided(w, table, wiped, visits) && a < b < |visits|
    requires visits[a].Tried? && visits[a].outcome.Formatted? && visits[b].Tried? && visits[b].outcome.Formatted?
    ensures visits[a].outcome.partition != visits[b].outcome.partition
  {
    WipedNoMore(wiped, visits[..b], a);
  }

  lemma {:induction false} WipedNoMore(wiped: set<string>, visits: seq<Visit>, a: nat)
    requires a < |visits| && visits[a].Tried? && visits[a].outcome.Formatted?
    ensures visits[a].outcome.partition !in WipedAfter(wiped, visits)
    decreases |visits|
  {
    if a < |visits| - 1 {
      WipedNoMore(wiped, visits[..|visits| - 1], a);
    }
  }

  lemma {:induction false} WipedShrinks(wiped: set<string>, visits: seq<Visit>)
    ensures WipedAfter(wiped, visits) <= wiped
  {
    if visits != [] {
      WipedShrinks(wiped, visits[..|visits| - 1]);
    }
  }

  lemma TraceSnoc(table: seq<Entry>, visits: seq<Visit>, v: Visit)
    requires Trace(table, visits) && v.Ok(table) && v.at == Position(visits)
    ensures Trace(table, visits + [v]) && Position(visits + [v]) == v.After()
    ensures Formats(visits + [v]) == Formats(visits) + if v.Tried? && v.outcome.Formatted? then 1 else 0
    ensures Errors(visits + [v]) == Errors(visits) + if v.Tried? && v.outcome.Left? && v.outcome.error then 1 else 0
    ensures Attempts(visits + [v]) == Attempts(visits) +
            if v.Skipped? then [] else AttemptsOf(v.at, v.end, v.outcome)
  {
    hide Failures, RunEnd;
    var more := visits + [v];
    assert more[..|visits|] == visits;
    forall a | 0 <= a < |more|
      ensures more[a].Ok(table) && more[a].at == Position(more[..a])
    {
      if a < |visits| {
        assert more[..a] == visits[..a];
      }
    }
  }

  /** The loop never goes back: a visit starts no earlier than any visit before it went on. So a run
      that was mounted or given up is never visited again. */
  lemma {:induction false} NeverBack(table: seq<Entry>, visits: seq<Visit>, a: nat, b: nat)
    requires Trace(table, visits) && a < b < |visits|
    ensures visits[a].After() <= visits[b].at
    decreases b
  {
    assert visits[..b][b - 1] == visits[b - 1];
    if a < b - 1 {
      NeverBack(table, visits, a, b - 1);
      assert visits[b - 1].Ok(table);
    }
  }

  /** At most one alternative of a run is mounted, over all visits. */
  lemma OneMountPerRun(table: seq<Entry>, visits: seq<Visit>, a: nat, b: nat)
    requires Trace(table, visits) && a < b < |visits|
    requires visits[a].Tried? && visits[a].outcome.Mounted? && visits[b].Tried? && visits[b].outcome.Mounted?
    ensures RunEnd(table, visits[a].outcome.index) <= visits[b].outcome.index
  {
    NeverBack(table, visits, a, b);
    assert visits[a].Ok(table) && visits[b].Ok(table);
    RunEndInside(table, visits[a].at, visits[a].outcome.index);
  }

  lemma {:induction false} RunEndInside(table: seq<Entry>, start: nat, i: nat)
    requires start <= i < |table| && i < RunEnd(table, start)
    ensures RunEnd(table, i) == RunEnd(table, start)
    decreases i - start
  {
    if start < i {
      RunEndInside(table, start + 1, i);
    }
  }

  lemma TraceFront(table: seq<Entry>, visits: seq<Visit>)
    requires Trace(table, visits) && visits != []
    ensures var n := |visits| - 1;
            Trace(table, visits[..n]) && visits[n].Ok(table) && visits[n].at == Position(visits[..n])
  {
    hide RunEnd;
    var front := visits[..|visits| - 1];
    forall a | 0 <= a < |front|
      ensures front[a].Ok(table) && front[a].at == Position(front[..a])
    {
      assert visits[..a] == front[..a] && visits[a].Ok(table);
    }
  }

  /** There are no more visits than entries and formats together. */
  lemma {:induction false} VisitsBounded(table: seq<Entry>, visits: seq<Visit>)
    requires Trace(table, visits)
    ensures |visits| <= Position(visits) + Formats(visits)
    ensures Position(visits) <= |table|
    decreases |visits|
  {
    hide RunEnd, Trace;
    if visits != [] {
      TraceFront(table, visits);
      VisitsBounded(table, visits[..|visits| - 1]);
    }
  }

  /** A loop that reached the end has visited every entry. */
  lemma {:induction false} EveryEntryVisited(table: seq<Entry>, visits: seq<Visit>, j: nat) returns (a: nat)
    requires Trace(table, visits) && j < Position(visits)
    ensures a < |visits| && visits[a].at <= j < visits[a].After()
    decreases |visits|
  {
    hide RunEnd, Trace;
    a := |visits| - 1;
    TraceFront(table, visits);
    if j < visits[a].at {
      a := EveryEntryVisited(table, visits[..a], j);
    }
  }

  lemma SamePointsTrans(a: seq<Entry>, b: seq<Entry>, c: seq<Entry>)
    requires SamePoints(a, b) && SamePoints(b, c)
    ensures |a| == |c| && SamePoints(a, c)
  {
  }

  lemma SamePointsUpdate(a: seq<Entry>, b: seq<Entry>, i: nat, device: string)
    requires SamePoints(a, b) && i < |b|
    ensures |a| == |b| && SamePoints(a, b[i := b[i].(blkDevice := device)])
  {
  }

  /** Gives the entry its device and tries the alternatives. */
  method SetUpAndMount(w: World, table: seq<Entry>, start: nat)
    returns (mounted: bool, last: nat, attempted: nat, device: string, fstab: seq<Entry>)
    requires start < |table|
    modifies w`asked, w`attempts
    ensures SamePoints(table, fstab) && w.asked > old(w.asked)
    ensures device == if w.answers(old(w.asked)) then w.names(old(w.asked)) else table[start].blkDevice
    ensures fstab == AliasedAll(table[start := table[start].(blkDevice := device)], start,
                                if mounted then attempted + 1 else RunEnd(table, start))
    ensures fstab[start].blkDevice == device
    ensures var e := RunEnd(table, start);
            && last == (if e < |table| then e - 1 else e)
            && start <= attempted < e
            && (if mounted then w.attempts == old(w.attempts) + Failures(start, attempted) + [(attempted, true)]
                else attempted == start && w.attempts == old(w.attempts) + Failures(start, e))
  {
    hide RunEnd, SamePoints, Failures, Aliased;
    SamePointsRefl(table);
    device := w.SetUp(table[start].blkDevice);
    SamePointsUpdate(table, table, start, device);
    var renamed := table[start := table[start].(blkDevice := device)];
    RunEndSame(table, renamed, start);
    mounted, last, attempted, fstab := MountWithAlternatives(w, renamed, start);
    SamePointsTrans(table, renamed, fstab);
  }

  /** One round for an entry that is not passed over: try its run, and if that fails see whether the
      partition is to be formatted, which sends the loop back to the same entry. */
  method TryRun(w: World, table: seq<Entry>, start: nat, ghost question: nat)
    returns (fstab: seq<Entry>, i: int, fatal: bool, error: bool, ghost device: string, ghost verdict: nat,
             ghost outcome: Outcome)
    requires start < |table|
    modifies w
    ensures SamePoints(table, fstab) && w.asked > old(w.asked)
    ensures device == if w.answers(old(w.asked)) then w.names(old(w.asked)) else table[start].blkDevice
    ensures fstab == TableAfter(w, table, Tried(start, question, RunEnd(table, start), device, verdict, outcome))
    ensures w.attempts == old(w.attempts) + AttemptsOf(start, RunEnd(table, start), outcome)
    ensures outcome.Mounted? ==> start <= outcome.index < RunEnd(table, start)
    ensures !outcome.Mounted? ==> outcome == Fate(w, table[start].formattable, device, verdict, old(w.wiped))
    ensures !outcome.Mounted? ==>
              old(w.asked) < verdict &&
              w.asked == verdict + if outcome.Left? then 2 else if outcome.Encrypted? then 3 else 4
    ensures w.wiped == old(w.wiped) - if outcome.Formatted? then {outcome.partition} else {}
    ensures |w.wiped| == |old(w.wiped)| - if outcome.Formatted? then 1 else 0
    ensures outcome.Mounted? ==> w.asked == verdict + 1
    ensures fatal <==> outcome.Mounted? && w.answers(verdict)
    ensures error == (outcome.Left? && outcome.error)
    ensures var end := RunEnd(table, start);
            i == if outcome.Formatted? then start - 1 else if end < |table| then end - 1 else end
  {
    hide RunEnd, SamePoints, Failures, Fate, Aliased, AliasedAll, TableAfter;
    SamePointsRefl(table);
    var mounted, last, attempted, dev, fstab' := SetUpAndMount(w, table, start);
    device := dev;
    fstab, i, fatal, error := fstab', last, false, false;
    verdict := w.asked;
    SameEntry(table, fstab, start);
    if mounted {
      outcome := Mounted(attempted);
      AfterMount(w, table, Tried(start, question, RunEnd(table, start), device, verdict, outcome), fstab);
      fatal := w.Ask();
      return;
    }
    var fstab'', formatted, err, o := AfterFailure(w, fstab, start);
    SamePointsTrans(table, fstab, fstab'');
    AfterNoMount(w, table, Tried(start, question, RunEnd(table, start), device, verdict, o), fstab, fstab'');
    fstab, error, outcome := fstab'', err, o;
    if formatted { i := start - 1; }
  }

  /** Formats the device below, unless encryption takes over. */
  method Reformat(w: World, device: string) returns (below: string, encrypted: bool, formatted: bool)
    requires w.partition(device) in w.wiped
    modifies w`asked, w`wiped
    ensures below == w.Below(device, old(w.asked)) && w.partition(below) == w.partition(device)
    ensures encrypted == w.answers(old(w.asked) + 1)
    ensures formatted == (!encrypted && w.answers(old(w.asked) + 2))
    ensures w.asked == old(w.asked) + if encrypted then 2 else 3
    ensures w.wiped == old(w.wiped) - if formatted then {w.partition(device)} else {}
    ensures |w.wiped| == |old(w.wiped)| - if formatted then 1 else 0
  {
    below := w.Revert(device);
    encrypted := w.Ask();
    formatted := false;
    if !encrypted {
      formatted := w.Format(below);
    }
  }

  /** What is done about a run that did not mount. */
  method AfterFailure(w: World, table: seq<Entry>, start: nat)
    returns (fstab: seq<Entry>, formatted: bool, error: bool, ghost outcome: Outcome)
    requires start < |table|
    modifies w`asked, w`wiped
    ensures SamePoints(table, fstab) && !outcome.Mounted?
    ensures fstab == if outcome.Left? then table
                     else table[start := table[start].(blkDevice := w.Below(table[start].blkDevice, old(w.asked) + 1))]
    ensures outcome == Fate(w, table[start].formattable, table[start].blkDevice, old(w.asked), old(w.wiped))
    ensures w.asked == old(w.asked) + if outcome.Left? then 2 else if outcome.Encrypted? then 3 else 4
    ensures w.wiped == old(w.wiped) - if outcome.Formatted? then {outcome.partition} else {}
    ensures |w.wiped| == |old(w.wiped)| - if outcome.Formatted? then 1 else 0
    ensures formatted == outcome.Formatted? && error == (outcome.Left? && outcome.error)
  {
    hide SamePoints;
    SamePointsRefl(table);
    fstab, formatted, error := table, false, false;
    var current := table[start];
    var retryable := w.Ask();
    if retryable && current.formattable && w.partition(current.blkDevice) in w.wiped {
      var below, encrypted, done := Reformat(w, current.blkDevice);
      SamePointsUpdate(table, table, start, below);
      fstab, formatted := table[start := current.(blkDevice := below)], done;
      outcome := if encrypted then Encrypted else if done then Formatted(w.partition(below)) else FormatFailed;
      return;
    }
    var ignorable := w.Ask();
    error := !ignorable;
    outcome := Left(error);
  }

  lemma NoVisits(w: World)
    ensures AllPassed(w, []) && Before([], w.asked)
  {
  }

  lemma SamePointsRefl(a: seq<Entry>)
    ensures SamePoints(a, a)
  {
  }

  /** Nothing in the visit ends the loop. */
  ghost predicate Passed(w: World, v: Visit) {
    v.Skipped? || (!w.answers(v.question + 1) && (v.outcome.Mounted? ==> !w.answers(v.verdict)))
  }

  ghost predicate AllPassed(w: World, visits: seq<Visit>) { forall v <- visits :: Passed(w, v) }

  /** Every visit began before question `n`. */
  ghost predicate Before(visits: seq<Visit>, n: nat) { forall v <- visits :: v.question < n }

  /** The loop failed: the entry that is not passed over after all visits cannot be opened, or the last
      visit mounted something that it must not. */
  ghost predicate Stopped(w: World, visits: seq<Visit>, asked: nat) {
    || (asked >= 2 && Before(visits, asked - 2) && !w.answers(asked - 2) && w.answers(asked - 1))
    || (visits != [] && var v := visits[|visits| - 1];
        v.Tried? && v.outcome.Mounted? && v.verdict == asked - 1 && w.answers(v.verdict))
  }

  lemma PassedSnoc(w: World, visits: seq<Visit>, v: Visit, n: nat, m: nat)
    requires AllPassed(w, visits) && Before(visits, n) && n <= m && v.question < m
    requires v.Tried? ==> !w.answers(v.question + 1)
    ensures Before(visits + [v], m)
    ensures v.Tried? && v.outcome.Mounted? && w.answers(v.verdict) ==>
              v.verdict == m - 1 ==> Stopped(w, visits + [v], m)
    ensures !(v.Tried? && v.outcome.Mounted? && w.answers(v.verdict)) ==> AllPassed(w, visits + [v])
  {
  }

  lemma SkipKeeps(w: World, t: seq<Entry>, v: Visit)
    requires v.Skipped?
    ensures TableAfter(w, t, v) == t
  {
  }

  lemma NotOpened(w: World, visits: seq<Visit>, n: nat)
    requires Before(visits, n) && !w.answers(n) && w.answers(n + 1)
    ensures Before(visits, n + 2) && Stopped(w, visits, n + 2)
  {
  }

  /** One round of the loop. */
  method Round(w: World, ghost table: seq<Entry>, fstab: seq<Entry>, start: nat, errors: nat,
               ghost visits: seq<Visit>, ghost before: seq<(nat, bool)>, ghost wiped0: set<string>)
    returns (fstab': seq<Entry>, i: int, errors': nat, failed: bool, ghost visits': seq<Visit>)
    requires start < |fstab| == |table| && SamePoints(table, fstab) && Position(visits) == start
    requires Along(w, table, visits, before, wiped0, w.attempts, w.wiped, errors)
    requires AllPassed(w, visits) && Before(visits, w.asked)
    requires DevicesOf(w, table, visits) && fstab == Reached(w, table, visits)
    modifies w
    ensures |fstab'| == |table| && SamePoints(table, fstab') && w.asked > old(w.asked)
    ensures Along(w, table, visits', before, wiped0, w.attempts, w.wiped, errors')
    ensures Before(visits', w.asked) && DevicesOf(w, table, visits') && fstab' == Reached(w, table, visits')
    ensures if failed then Stopped(w, visits', w.asked) else AllPassed(w, visits')
    ensures !failed ==> start <= i <= |table| + 1 && Position(visits') == Min(i, |table|)
    ensures |w.wiped| <= |old(w.wiped)| && (!failed ==> |w.wiped| < |old(w.wiped)| || i > start)
  {
    hide RunEnd, SamePoints, Failures, Position, AttemptsOf, Fate, Along, AllPassed, Before, Stopped, Passed,
         DevicesOf, Reached, TableAfter;
    ghost var question := w.asked;
    fstab', i, errors', failed, visits' := fstab, start, errors, false, visits;
    var skip := w.Ask();
    if skip {
      AlongSnoc(w, table, visits, before, wiped0, w.attempts, w.wiped, errors, Skipped(start, question));
      DevicesSnoc(w, table, visits, Skipped(start, question));
      SkipKeeps(w, fstab, Skipped(start, question));
      visits' := visits + [Skipped(start, question)];
      PassedSnoc(w, visits, Skipped(start, question), question, w.asked);
      i := start + 1;
      return;
    }
    var openFails := w.Ask();
    if openFails {
      NotOpened(w, visits, question);
      failed := true;
      return;
    }
    RunEndSame(table, fstab, start);
    SameEntry(table, fstab, start);
    var tried, last, fatal, error, device, verdict, outcome := TryRun(w, fstab, start, question);
    fstab' := tried;
    SamePointsTrans(table, fstab, fstab');
    ghost var v := Tried(start, question, RunEnd(table, start), device, verdict, outcome);
    AlongSnoc(w, table, visits, before, wiped0, old(w.attempts), old(w.wiped), errors, v);
    DevicesSnoc(w, table, visits, v);
    visits' := visits + [v];
    PassedSnoc(w, visits, v, question, w.asked);
    failed := fatal;
    if error { errors' := errors + 1; }
    i := last + 1;
  }

  /** The loop over the table. It ends for every sequence of answers, because each round either moves
      the index forward or formats a wiped partition. Its visits go through the table as `Trace` says,
      an entry is passed over exactly when the answer is yes, the mounts tried are those of the visits,
      a partition is formatted exactly when `Fate` says so, and unless it fails on the way it gets to
      the end. */
  method MountAllEntries(w: World, table: seq<Entry>) returns (r: Result, ghost visits: seq<Visit>)
    modifies w
    ensures Trace(table, visits)
    ensures w.attempts == old(w.attempts) + Attempts(visits)
    ensures Formats(visits) + |w.wiped| == |old(w.wiped)| && w.wiped == WipedAfter(old(w.wiped), visits)
    ensures AllDecided(w, table, old(w.wiped), visits) && DevicesOf(w, table, visits)
    ensures forall a :: 0 <= a < |visits| ==> w.answers(visits[a].question) == visits[a].Skipped?
    ensures r.Finished? ==>
              table != [] && Position(visits) == |table| && r.errors == Errors(visits) && AllPassed(w, visits)
    ensures r.Failed? ==> table == [] || Stopped(w, visits, w.asked)
  {
    hide RunEnd, SamePoints, Failures, Position, AttemptsOf, Fate, Along, Trace, Attempts, Formats, Errors, WipedAfter,
         AllDecided, AllPassed, Before, Stopped, DevicesOf, Reached;
    NoVisits(w);
    NoDevices(w, table);
    AlongStart(w, table, w.attempts, w.wiped);
    SamePointsRefl(table);
    visits := [];
    if table == [] {
      AlongMeans(w, table, visits, old(w.attempts), old(w.wiped), w.attempts, w.wiped, 0);
      return Failed, visits;
    }
    var fstab, i, errors, failed := table, 0, 0, false;
    while i < |fstab|
      invariant 0 <= i <= |fstab| + 1 && |fstab| == |table| && SamePoints(table, fstab) && w.asked >= old(w.asked)
      invariant Along(w, table, visits, old(w.attempts), old(w.wiped), w.attempts, w.wiped, errors)
      invariant Position(visits) == Min(i, |table|) && AllPassed(w, visits) && Before(visits, w.asked)
      invariant DevicesOf(w, table, visits) && fstab == Reached(w, table, visits)
      decreases |w.wiped|, |fstab| - i
    {
      fstab, i, errors, failed, visits := Round(w, table, fstab, i, errors, visits, old(w.attempts), old(w.wiped));
      if failed {
        AlongMeans(w, table, visits, old(w.attempts), old(w.wiped), w.attempts, w.wiped, errors);
        return Failed, visits;
      }
    }
    AlongMeans(w, table, visits, old(w.attempts), old(w.wiped), w.attempts, w.wiped, errors);
    return Finished(errors), visits;
  }

  lemma AlongMeans(w: World, table: seq<Entry>, visits: seq<Visit>, before: seq<(nat, bool)>, wiped0: set<string>,
                   attempts: seq<(nat, bool)>, wiped: set<string>, errors: nat)
    requires Along(w, table, visits, before, wiped0, attempts, wiped, errors)
    ensures Trace(table, visits) && AllDecided(w, table, wiped0, visits)
    ensures attempts == before + Attempts(visits) && errors == Errors(visits)
    ensures Formats(visits) + |wiped| == |wiped0| && wiped == WipedAfter(wiped0, visits)
    ensures forall a :: 0 <= a < |visits| ==> w.answers(visits[a].question) == visits[a].Skipped?
  {
  }

  /** The visits account for what has happened to the world. */
  ghost predicate Along(w: World, table: seq<Entry>, visits: seq<Visit>, before: seq<(nat, bool)>, wiped0: set<string>,
                        attempts: seq<(nat, bool)>, wiped: set<string>, errors: nat) {
    && Trace(table, visits) && AllDecided(w, table, wiped0, visits)
    && attempts == before + Attempts(visits) && errors == Errors(visits)
    && Formats(visits) + |wiped| == |wiped0| && wiped == WipedAfter(wiped0, visits)
    && forall a :: 0 <= a < |visits| ==> w.answers(visits[a].question) == visits[a].Skipped?
  }

  lemma AlongStart(w: World, table: seq<Entry>, before: seq<(nat, bool)>, wiped: set<string>)
    ensures Along(w, table, [], before, wiped, before, wiped, 0) && Position([]) == 0
  {
  }

  lemma AlongSnoc(w: World, table: seq<Entry>, visits: seq<Visit>, before: seq<(nat, bool)>, wiped0: set<string>,
                  attempts: seq<(nat, bool)>, wiped: set<string>, errors: nat, v: Visit)
    requires Along(w, table, visits, before, wiped0, attempts, wiped, errors)
    requires v.Ok(table) && v.at == Position(visits) && w.answers(v.question) == v.Skipped?
    requires Decided(w, table[v.at].formattable, v, wiped)
    ensures Position(visits + [v]) == v.After()
    ensures v.Skipped? ==> Along(w, table, visits + [v], before, wiped0, attempts, wiped, errors)
    ensures v.Tried? ==>
              var o := v.outcome;
              Along(w, table, visits + [v], before, wiped0, attempts + AttemptsOf(v.at, v.end, o),
                    wiped - (if o.Formatted? then {o.partition} else {}), errors + if o.Left? && o.error then 1 else 0)
  {
    hide Trace, AllDecided, Attempts, Formats, Errors, WipedAfter, Position, AttemptsOf, RunEnd;
    TraceSnoc(table, visits, v);
    DecidedSnoc(w, table, wiped0, visits, v);
  }

  lemma SameEntry(a: seq<Entry>, b: seq<Entry>, i: nat)
    requires SamePoints(a, b) && i < |a|
    ensures i < |b| && a[i].formattable == b[i].formattable
  {
  }
}
