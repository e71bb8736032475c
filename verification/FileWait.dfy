/** Waiting for a file with a one-shot inotify: check, watch, check again, then poll, check and drain in
    a loop, while other processes change the directory. The condition is that the path has appeared, or
    for the deletion variant that it is gone; `met` says whether it holds right now.

    An event is queued only for what the watch covers. The creation variant watches the directory for
    created names, so a file renamed into place appears silently. The deletion variant watches the file
    itself, so a file renamed away, or one that has another link, disappears silently, and the watch
    ends with the file. A watch can also end because the thing watched is removed or unmounted. */
module FileWait {

  datatype Variant = Creation | Deletion

  datatype Pc =
    | First            // before the first check
    | Create           // before the inotify instance is created
    | Watch            // before the watch is added
    | Second           // before the second check
    | Loop             // before the remaining time is looked at and the poll
    | Third            // the poll reported events; before the check
    | Drain            // the check failed; reading events until there are none
    | Fallback         // inotify failed; before a check of the polling loop
    | Sleep            // the check failed; before looking at the clock
    | Done(ok: bool)

  datatype State = State(
    variant: Variant,
    pc: Pc,
    met: bool,         // the condition holds now
    watched: bool,     // there is a watch
    queue: nat,        // unread events
    seen: bool,        // history: some check saw the condition
    gap: bool)         // history: met since the last check in a way that the poll does not see

  datatype Move =
    | Check                    // one of the three checks, or the one in the polling loop
    | Setup(ok: bool)          // creating the instance or adding the watch
    | Expire                   // no time is left
    | Again                    // there is; poll once more
    | Poll(ok: bool)           // the poll returns with events, or fails
    | Idle                     // the poll times out or is interrupted
    | Read(n: nat)             // a read takes n events
    | ReadFails
    | Meet(heard: bool)        // the environment makes the condition hold, with or without an event
    | Unmeet                   // or stop holding
    | Noise(ends: bool)        // another event, which may end the watch

  function Start(variant: Variant, met: bool): State { State(variant, First, met, false, 0, false, false) }

  /** The end of a watched file is reported together with the end of the watch. */
  function Queued(variant: Variant): nat { if variant.Deletion? then 2 else 1 }

  /** The condition is met where the poll does not see it: during a drain, or while listening without
      an event. */
  predicate Misses(s: State, m: Move) {
    m.Meet? && (s.pc.Drain? || ((s.pc.Loop? || s.pc.Third?) && !m.heard))
  }

  function Met(s: State, heard: bool): State {
    s.(met := true, queue := if heard then s.queue + Queued(s.variant) else s.queue,
       watched := s.watched && !(heard && s.variant.Deletion?), gap := Misses(s, Meet(heard)))
  }

  /** A check forgets the past: what matters from here on is what happens after it. */
  function Checked(s: State, next: Pc): State {
    s.(seen := s.seen || s.met, gap := false, pc := if s.met then Done(true) else next)
  }

  ghost predicate Next(s: State, m: Move, s': State) {
    match m
    case Check =>
      (match s.pc
       case First => s' == Checked(s, Create)
       case Second => s' == Checked(s, Loop)
       case Third => s' == Checked(s, Drain)
       case Fallback => s' == Checked(s, Sleep)
       case _ => false)
    case Setup(ok) =>
      (match s.pc
       case Create => s' == s.(pc := if ok then Watch else Fallback)
       case Watch =>
         // a file that is gone cannot be watched
         && (ok && s.variant.Deletion? ==> !s.met)
         && s' == if ok then s.(pc := Second, watched := true) else s.(pc := Fallback)
       case _ => false)
    case Expire => (s.pc.Loop? || s.pc.Sleep?) && s' == s.(pc := Done(false))
    case Again => s.pc.Sleep? && s' == s.(pc := Fallback)
    case Poll(ok) => s.pc.Loop? && if ok then s.queue > 0 && s' == s.(pc := Third) else s' == s.(pc := Fallback)
    case Idle => s.pc.Loop? && s' == s
    case Read(n) =>
      s.pc.Drain? && n <= s.queue && (n == 0 ==> s.queue == 0) &&
      s' == s.(queue := s.queue - n, pc := if n == 0 then Loop else Drain)
    case ReadFails => s.pc.Drain? && s' == s.(pc := Fallback)
    case Meet(heard) => !s.met && (heard ==> s.watched) && s' == Met(s, heard)
    case Unmeet => s.met && s' == s.(met := false, gap := false)
    case Noise(ends) =>
      s.watched && (s.variant.Deletion? ==> ends) && s' == s.(queue := s.queue + Queued(s.variant), watched := !ends)
  }

  ghost predicate IsRun(states: seq<State>, moves: seq<Move>) {
    && |states| == |moves| + 1
    && states[0] == Start(states[0].variant, states[0].met)
    && forall i :: 0 <= i < |moves| ==> Next(states[i], moves[i], states[i + 1])
  }

  /** Where the wait listens, a condition met since the last check is either still queued or was missed. */
  ghost predicate Inv(s: State) {
    && (s.pc == Done(true) ==> s.seen)
    && (s.gap ==> s.met)
    && (s.pc.Loop? && s.met ==> s.gap || s.queue > 0)
    && (s.pc.Drain? && s.met ==> s.gap)
  }

  lemma NextKeepsInv(s: State, m: Move, s': State)
    requires Inv(s) && Next(s, m, s')
    ensures Inv(s')
  {
  }

  lemma {:induction false} RunKeepsInv(states: seq<State>, moves: seq<Move>, i: nat)
    requires IsRun(states, moves) && i < |states|
    ensures Inv(states[i])
    decreases i
  {
    if i > 0 {
      RunKeepsInv(states, moves, i - 1);
      NextKeepsInv(states[i - 1], moves[i - 1], states[i]);
    }
  }

  /** Success is never invented: some check found the condition met. */
  lemma {:induction false} SeenAtACheck(states: seq<State>, moves: seq<Move>, i: nat) returns (k: nat)
    requires IsRun(states, moves) && i < |states| && states[i].seen
    ensures k < i && moves[k].Check? && states[k].met
    decreases i
  {
    k := 0;
    if i > 0 {
      assert Next(states[i - 1], moves[i - 1], states[i]);
      if states[i - 1].seen {
        k := SeenAtACheck(states, moves, i - 1);
      } else {
        k := i - 1;
      }
    }
  }

  lemma SuccessWasSeen(states: seq<State>, moves: seq<Move>, i: nat) returns (k: nat)
    requires IsRun(states, moves) && i < |states| && states[i].pc == Done(true)
    ensures k < i && moves[k].Check? && states[k].met
  {
    RunKeepsInv(states, moves, i);
    k := SeenAtACheck(states, moves, i);
  }

  /** Some meeting of the condition was missed, and since then there was no check and it still holds. */
  ghost predicate Missed(states: seq<State>, moves: seq<Move>, i: nat)
    requires i <= |moves| <= |states|
  {
    exists k :: 0 <= k < i && Misses(states[k], moves[k])
                && forall j :: k < j < i ==> !moves[j].Check? && !moves[j].Unmeet?
  }

  lemma GapStep(s: State, m: Move, s': State)
    requires Inv(s) && Next(s, m, s')
    ensures s'.gap <==> Misses(s, m) || (s.gap && !m.Check? && !m.Unmeet?)
  {
  }

  lemma MissedStep(states: seq<State>, moves: seq<Move>, i: nat)
    requires i < |moves| <= |states|
    ensures Missed(states, moves, i + 1) <==>
            Misses(states[i], moves[i]) || (Missed(states, moves, i) && !moves[i].Check? && !moves[i].Unmeet?)
  {
    hide Misses;
    if Missed(states, moves, i + 1) {
      var k :| 0 <= k < i + 1 && Misses(states[k], moves[k])
               && forall j :: k < j < i + 1 ==> !moves[j].Check? && !moves[j].Unmeet?;
      assert k < i ==> Missed(states, moves, i);
    }
    if Missed(states, moves, i) && !moves[i].Check? && !moves[i].Unmeet? {
      var k :| 0 <= k < i && Misses(states[k], moves[k])
               && forall j :: k < j < i ==> !moves[j].Check? && !moves[j].Unmeet?;
      assert forall j :: k < j < i + 1 ==> !moves[j].Check? && !moves[j].Unmeet?;
    }
  }

  /** The flag says what it should of every run. */
  lemma {:induction false} GapMeansMissed(states: seq<State>, moves: seq<Move>, i: nat)
    requires IsRun(states, moves) && i < |states|
    ensures states[i].gap <==> Missed(states, moves, i)
    decreases i
  {
    hide Misses, Inv, Next;
    if i > 0 {
      hide Missed;
      GapMeansMissed(states, moves, i - 1);
      RunKeepsInv(states, moves, i - 1);
      MissedStep(states, moves, i - 1);
      GapStep(states[i - 1], moves[i - 1], states[i]);
    }
  }

  /** When the poll would block, the condition holds exactly if its meeting was missed: it was met
      during a drain or without an event, and there was no check since. */
  lemma BlockedIffMissed(states: seq<State>, moves: seq<Move>, i: nat)
    requires IsRun(states, moves) && i < |states| && states[i].pc.Loop? && states[i].queue == 0
    ensures states[i].met <==> Missed(states, moves, i)
  {
    RunKeepsInv(states, moves, i);
    GapMeansMissed(states, moves, i);
  }

  /** A listening wait that times out after a missed meeting has its condition met, and with no event
      left unread only then. */
  lemma TimeoutIffMissed(states: seq<State>, moves: seq<Move>, i: nat)
    requires IsRun(states, moves) && 0 < i < |states| && moves[i - 1].Expire? && states[i - 1].pc.Loop?
    ensures Missed(states, moves, i) ==> states[i].met
    ensures states[i].queue == 0 ==> (states[i].met <==> Missed(states, moves, i))
  {
    RunKeepsInv(states, moves, i - 1);
    GapMeansMissed(states, moves, i);
    assert Next(states[i - 1], moves[i - 1], states[i]);
  }

  /** If nothing is missed, no wake-up is lost: the poll never blocks, and the wait never times out, with
      the condition met and nothing queued. */
  lemma NoLostWakeup(states: seq<State>, moves: seq<Move>, i: nat)
    requires IsRun(states, moves) && i < |states|
    requires forall k :: 0 <= k < i ==> !Misses(states[k], moves[k])
    ensures states[i].pc.Loop? && states[i].queue == 0 ==> !states[i].met
    ensures 0 < i && moves[i - 1].Expire? && states[i - 1].pc.Loop? && states[i].met ==> states[i].queue > 0
  {
    if states[i].pc.Loop? && states[i].queue == 0 {
      BlockedIffMissed(states, moves, i);
    }
    if 0 < i && moves[i - 1].Expire? && states[i - 1].pc.Loop? {
      TimeoutIffMissed(states, moves, i);
    }
  }

  /** A run that times out although the condition is met, with no event left. */
  ghost predicate LostWakeup(states: seq<State>, moves: seq<Move>) {
    && IsRun(states, moves)
    && var last := states[|states| - 1];
       last.pc == Done(false) && last.met && last.queue == 0 && !last.seen
  }

  /** A run that has come to `last`, and where each meeting of the condition was as `p` says. */
  ghost predicate Comes(states: seq<State>, moves: seq<Move>, last: State, p: (State, Move) -> bool) {
    && IsRun(states, moves) && states[|states| - 1] == last && states[0].variant == last.variant
    && forall k :: 0 <= k < |moves| && moves[k].Meet? ==> p(states[k], moves[k])
  }

  lemma Then(states: seq<State>, moves: seq<Move>, s: State, p: (State, Move) -> bool, m: Move, t: State)
    returns (ss: seq<State>, ms: seq<Move>)
    requires Comes(states, moves, s, p) && Next(s, m, t) && t.variant == s.variant && (m.Meet? ==> p(s, m))
    ensures Comes(ss, ms, t, p)
  {
    hide Next;
    ss, ms := states + [t], moves + [m];
  }

  /** A run up to the first poll, where nothing has happened yet. */
  lemma Listening(variant: Variant, p: (State, Move) -> bool) returns (states: seq<State>, moves: seq<Move>)
    ensures Comes(states, moves, Start(variant, false).(pc := Loop, watched := true), p)
  {
    var s := Start(variant, false);
    states, moves := [s], [];
    states, moves := Then(states, moves, s, p, Check, s.(pc := Create));
    states, moves := Then(states, moves, s.(pc := Create), p, Setup(true), s.(pc := Watch));
    states, moves := Then(states, moves, s.(pc := Watch), p, Setup(true), s.(pc := Second, watched := true));
    states, moves := Then(states, moves, s.(pc := Second, watched := true), p, Check, s.(pc := Loop, watched := true));
  }

  /** The poll wakes and the check fails. */
  lemma Woken(states: seq<State>, moves: seq<Move>, s: State, p: (State, Move) -> bool)
    returns (ss: seq<State>, ms: seq<Move>)
    requires Comes(states, moves, s, p) && s.pc.Loop? && s.queue > 0 && !s.met && !s.gap
    ensures Comes(ss, ms, s.(pc := Drain), p)
  {
    hide Comes;
    ss, ms := Then(states, moves, s, p, Poll(true), s.(pc := Third));
    ss, ms := Then(ss, ms, s.(pc := Third), p, Check, s.(pc := Drain));
  }

  /** Everything queued is read at once. */
  lemma Drained(states: seq<State>, moves: seq<Move>, s: State, p: (State, Move) -> bool)
    returns (ss: seq<State>, ms: seq<Move>)
    requires Comes(states, moves, s, p) && s.pc.Drain? && s.queue > 0
    ensures Comes(ss, ms, s.(pc := Loop, queue := 0), p)
  {
    hide Comes;
    ss, ms := Then(states, moves, s, p, Read(s.queue), s.(queue := 0));
    ss, ms := Then(ss, ms, s.(queue := 0), p, Read(0), s.(pc := Loop, queue := 0));
  }

  /** The wait times out with the condition met. */
  lemma Lost(states: seq<State>, moves: seq<Move>, s: State, p: (State, Move) -> bool)
    returns (ss: seq<State>, ms: seq<Move>)
    requires Comes(states, moves, s, p) && s.pc.Loop? && s.met && s.queue == 0 && !s.seen
    ensures LostWakeup(ss, ms) && ss[0].variant == s.variant
    ensures forall k :: 0 <= k < |ms| && ms[k].Meet? ==> p(ss[k], ms[k])
  {
    ss, ms := Then(states, moves, s, p, Expire, s.(pc := Done(false)));
  }

  predicate InDrain(s: State, m: Move) { m.Meet? && m.heard && s.pc.Drain? }

  /** A file created just after the check is drained away. */
  lemma WakeupCanBeDrained() returns (states: seq<State>, moves: seq<Move>)
    ensures LostWakeup(states, moves) && states[0].variant.Creation?
    ensures forall k :: 0 <= k < |moves| && moves[k].Meet? ==> InDrain(states[k], moves[k])
  {
    hide Comes, LostWakeup;
    var s := Start(Creation, false).(pc := Loop, watched := true);
    states, moves := Listening(Creation, InDrain);
    states, moves := Then(states, moves, s, InDrain, Noise(false), s.(queue := 1));
    states, moves := Woken(states, moves, s.(queue := 1), InDrain);
    s := s.(pc := Drain, queue := 1);
    states, moves := Then(states, moves, s, InDrain, Meet(true), Met(s, true));
    states, moves := Drained(states, moves, Met(s, true), InDrain);
    states, moves := Lost(states, moves, Met(s, true).(pc := Loop, queue := 0), InDrain);
  }

  predicate Silent(s: State, m: Move) { m.Meet? && !m.heard && s.pc.Loop? && s.watched }

  /** A file renamed into place while the poll waits queues nothing. */
  lemma RenameIsNotHeard() returns (states: seq<State>, moves: seq<Move>)
    ensures LostWakeup(states, moves) && states[0].variant.Creation?
    ensures forall k :: 0 <= k < |moves| && moves[k].Meet? ==> Silent(states[k], moves[k])
  {
    hide Comes, LostWakeup;
    var s := Start(Creation, false).(pc := Loop, watched := true);
    states, moves := Listening(Creation, Silent);
    states, moves := Then(states, moves, s, Silent, Meet(false), Met(s, false));
    states, moves := Lost(states, moves, Met(s, false), Silent);
  }

  predicate HeardIfWatched(s: State, m: Move) { m.Meet? && s.pc.Loop? && (m.heard <==> s.watched) }

  /** A file that is deleted and created again takes its watch along, so its second deletion is not
      heard, although the poll was waiting both times and every deletion under watch was heard. */
  lemma SecondDeletionIsNotHeard() returns (states: seq<State>, moves: seq<Move>)
    ensures LostWakeup(states, moves) && states[0].variant.Deletion?
    ensures forall k :: 0 <= k < |moves| && moves[k].Meet? ==> HeardIfWatched(states[k], moves[k])
  {
    hide Comes, LostWakeup;
    var p := HeardIfWatched;
    var s := Start(Deletion, false).(pc := Loop);
    states, moves := Listening(Deletion, p);
    states, moves := Then(states, moves, s.(watched := true), p, Meet(true), s.(met := true, queue := 2));
    states, moves := Then(states, moves, s.(met := true, queue := 2), p, Unmeet, s.(queue := 2));
    states, moves := Woken(states, moves, s.(queue := 2), p);
    states, moves := Drained(states, moves, s.(pc := Drain, queue := 2), p);
    states, moves := Then(states, moves, s, p, Meet(false), Met(s, false));
    states, moves := Lost(states, moves, Met(s, false), p);
  }

  /** The polling loop gives up only after a check of its own that failed. */
  lemma {:induction false} SleepsAfterACheck(states: seq<State>, moves: seq<Move>, i: nat) returns (k: nat)
    requires IsRun(states, moves) && i < |states| && states[i].pc.Sleep?
    ensures k < i && moves[k].Check? && states[k].pc.Fallback? && !states[k].met
    ensures forall j :: k < j <= i ==> states[j].pc.Sleep?
    decreases i
  {
    k := 0;
    if i > 0 {
      assert Next(states[i - 1], moves[i - 1], states[i]);
      if states[i - 1].pc.Sleep? {
        k := SleepsAfterACheck(states, moves, i - 1);
      } else {
        k := i - 1;
      }
    }
  }
}

/** The waiting code itself. Other processes, the clock and the outcomes of system calls come from a
    script with one turn per call; when it is used up, calls fail and the time is over. */
module OneShotInotify {
  import opened FileWait

  /** What others do between two calls. A change is silent if it is one that the watch does not cover. */
  datatype Change = Fulfil(silent: bool) | Undo | Unrelated(ends: bool)

  datatype Turn = Turn(before: seq<Change>, ok: bool, idle: bool, late: bool, n: nat)

  const OVER := Turn([], false, false, true, 0)

  // ------------------------------------------------------------ what the turns say

  predicate Own(m: Move) { !m.Meet? && !m.Unmeet? && !m.Noise? }

  /** The move is the one that the turn asks for: a call succeeds or fails as the turn says, and the
      wait gives up at the first look at the clock that finds it late. */
  predicate Told(t: Turn, s: State, m: Move) {
    match m
    case Setup(ok) => ok <==> t.ok && !(s.pc.Watch? && s.variant.Deletion? && s.met)
    case Expire => t.late
    case Again => !t.late
    case Poll(ok) => !t.late && !t.idle && (ok <==> t.ok)
    case Idle => !t.late && (t.idle || (t.ok && s.queue == 0))
    case Read(n) => t.ok && (0 < t.n <= s.queue ==> n == t.n)
    case ReadFails => !t.ok
    case _ => true
  }

  /** What the waiter did, with the state it did it in. */
  ghost function Acts(states: seq<State>, moves: seq<Move>): seq<(State, Move)>
    requires |states| == |moves| + 1
  {
    if moves == [] then []
    else
      var k := |moves| - 1;
      Acts(states[..k + 1], moves[..k]) + if Own(moves[k]) then [(states[k], moves[k])] else []
  }

  lemma ActsSnoc(states: seq<State>, moves: seq<Move>, t: State, m: Move)
    requires |states| == |moves| + 1
    ensures Acts(states + [t], moves + [m]) ==
            Acts(states, moves) + if Own(m) then [(states[|moves|], m)] else []
  {
    assert (states + [t])[..|moves| + 1] == states && (moves + [m])[..|moves|] == moves;
  }

  /** Each act is the one that its turn asked for. */
  ghost predicate Obeyed(turns: seq<Turn>, acts: seq<(State, Move)>) {
    |turns| == |acts| && forall i :: 0 <= i < |acts| ==> Told(turns[i], acts[i].0, acts[i].1)
  }

  /** A look at the clock that finds the time over. */
  predicate LooksLate(t: Turn, act: (State, Move)) { (act.0.pc.Loop? || act.0.pc.Sleep?) && t.late }

  /** The turns taken are those of the script, in order, and the rest is left. */
  ghost predicate Used(script: seq<Turn>, turns: seq<Turn>, rest: seq<Turn>) {
    && rest == (if |turns| <= |script| then script[|turns|..] else [])
    && forall i :: 0 <= i < |turns| ==> turns[i] == if i < |script| then script[i] else OVER
  }

  function Last<T>(s: seq<T>): T
    requires s != []
  {
    s[|s| - 1]
  }

  /** A run without its last move. */
  lemma RunFront(states: seq<State>, moves: seq<Move>, turns: seq<Turn>)
    requires IsRun(states, moves) && Obeyed(turns, Acts(states, moves)) && moves != []
    ensures var k := |moves| - 1;
            && IsRun(states[..k + 1], moves[..k])
            && Obeyed(if Own(moves[k]) then turns[..|turns| - 1] else turns, Acts(states[..k + 1], moves[..k]))
    ensures Own(moves[|moves| - 1]) ==> |turns| > 0 && Last(Acts(states, moves)) == (states[|moves| - 1], Last(moves))
    ensures !Own(moves[|moves| - 1]) ==> Acts(states[..|moves|], moves[..|moves| - 1]) == Acts(states, moves)
  {
    hide Told, Next;
    var k := |moves| - 1;
    forall i | 0 <= i < k
      ensures Next(states[..k + 1][i], moves[..k][i], states[..k + 1][i + 1])
    {
      assert Next(states[i], moves[i], states[i + 1]);
    }
    var acts, front := Acts(states, moves), Acts(states[..k + 1], moves[..k]);
    forall i | 0 <= i < |front|
      ensures Told(turns[i], front[i].0, front[i].1)
    {
      assert acts[i] == front[i];
    }
  }

  /** One move of the waiter ends the wait without success exactly if it looks at the clock too late;
      others end nothing, and an ended wait does nothing. */
  lemma MoveEnds(s: State, m: Move, t: State, turn: Turn)
    requires Next(s, m, t)
    ensures !Own(m) ==> t.pc == s.pc
    ensures Own(m) ==> !s.pc.Done?
    ensures Own(m) && Told(turn, s, m) ==> (t.pc == Done(false) <==> LooksLate(turn, (s, m)))
  {
  }

  /** A turn that says the time is over when the wait looks at the clock is the last, and ends it. */
  lemma {:induction false} LateIsLast(states: seq<State>, moves: seq<Move>, turns: seq<Turn>, i: nat)
    requires IsRun(states, moves) && Obeyed(turns, Acts(states, moves))
    requires i < |turns| && LooksLate(turns[i], Acts(states, moves)[i])
    ensures i == |turns| - 1 && states[|moves|].pc == Done(false)
    decreases |moves|
  {
    hide Next, Told, LooksLate, Own;
    var k := |moves| - 1;
    RunFront(states, moves, turns);
    MoveEnds(states[k], moves[k], states[k + 1], turns[i]);
    if !(Own(moves[k]) && i == |turns| - 1) {
      LateIsLast(states[..k + 1], moves[..k], if Own(moves[k]) then turns[..|turns| - 1] else turns, i);
    }
  }

  /** And a wait that is over without success ended at such a turn. */
  lemma {:induction false} EndedLate(states: seq<State>, moves: seq<Move>, turns: seq<Turn>)
    requires IsRun(states, moves) && Obeyed(turns, Acts(states, moves)) && states[|moves|].pc == Done(false)
    ensures turns != [] && LooksLate(Last(turns), Last(Acts(states, moves)))
    decreases |moves|
  {
    hide Next, Told, LooksLate, Own, Acts;
    assert moves != [];
    var k := |moves| - 1;
    RunFront(states, moves, turns);
    if Own(moves[k]) {
      MoveEnds(states[k], moves[k], states[k + 1], Last(turns));
    } else {
      MoveEnds(states[k], moves[k], states[k + 1], OVER);
      EndedLate(states[..k + 1], moves[..k], turns);
    }
  }

  // ------------------------------------------------------------ what others do

  function After(s: State, c: Change): State {
    match c
    case Fulfil(silent) => if s.met then s else Met(s, s.watched && !silent)
    case Undo => if s.met then s.(met := false, gap := false) else s
    case Unrelated(ends) =>
      if s.watched then s.(queue := s.queue + Queued(s.variant), watched := !ends && !s.variant.Deletion?) else s
  }

  function AfterAll(s: State, cs: seq<Change>): State {
    if cs == [] then s else After(AfterAll(s, cs[..|cs| - 1]), cs[|cs| - 1])
  }

  /** The last change to the condition decides it, and nothing is ever taken from the queue. */
  lemma {:induction false} ChangesMean(s: State, cs: seq<Change>)
    ensures var t := AfterAll(s, cs);
            && t.pc == s.pc && t.seen == s.seen && t.variant == s.variant && t.queue >= s.queue
            && (t.met <==> Fulfilled(s.met, cs)) && (t.watched ==> s.watched)
  {
    if cs != [] {
      ChangesMean(s, cs[..|cs| - 1]);
    }
  }

  /** A watch on a directory ends only when the directory goes, and one on a file only with an event. */
  lemma {:induction false} WatchStays(s: State, cs: seq<Change>)
    requires s.variant.Creation? ==> forall c <- cs :: c.Unrelated? ==> !c.ends
    requires s.variant.Deletion? ==> forall c <- cs :: !c.Unrelated? && (c.Fulfil? ==> c.silent)
    ensures AfterAll(s, cs).watched == s.watched
    ensures s.variant.Deletion? ==> AfterAll(s, cs).queue == s.queue
  {
    if cs != [] {
      WatchStays(s, cs[..|cs| - 1]);
      ChangesMean(s, cs[..|cs| - 1]);
    }
  }

  predicate Fulfilled(before: bool, cs: seq<Change>) {
    if cs == [] then before
    else if cs[|cs| - 1].Unrelated? then Fulfilled(before, cs[..|cs| - 1])
    else cs[|cs| - 1].Fulfil?
  }

  /** The directory and the event queue, with the history of everything that happened and the turns that
      the waiter acted on. */
  class World {
    var s: State
    ghost var states: seq<State>
    ghost var moves: seq<Move>
    ghost var turns: seq<Turn>

    ghost predicate Valid()
      reads this
    {
      IsRun(states, moves) && states[|states| - 1] == s && Obeyed(turns, Acts(states, moves))
    }

    constructor (variant: Variant, met: bool)
      ensures Valid() && s == Start(variant, met) && turns == []
    {
      s, states, moves, turns := Start(variant, met), [Start(variant, met)], [], [];
    }

    method Suffer(m: Move, t: State)
      requires Valid() && Next(s, m, t) && !Own(m)
      modifies this
      ensures Valid() && s == t && turns == old(turns)
      ensures states == old(states) + [t] && moves == old(moves) + [m]
    {
      hide Next, Told, Own;
      ActsSnoc(states, moves, t, m);
      s, states, moves := t, states + [t], moves + [m];
    }

    method Take(turn: Turn, m: Move, t: State)
      requires Valid() && Next(s, m, t) && Own(m) && Told(turn, s, m)
      modifies this
      ensures Valid() && s == t && turns == old(turns) + [turn]
      ensures states == old(states) + [t] && moves == old(moves) + [m]
    {
      hide Next, Told, Own;
      ActsSnoc(states, moves, t, m);
      s, states, moves, turns := t, states + [t], moves + [m], turns + [turn];
    }

    /** Creating the inotify instance, or adding the watch, which fails for a file that is gone. */
    method SetUp(turn: Turn) returns (ok: bool)
      requires Valid() && (s.pc.Create? || s.pc.Watch?)
      modifies this
      ensures ok == (turn.ok && !(old(s).pc.Watch? && old(s).variant.Deletion? && old(s).met))
      ensures Valid() && s.pc == if !ok then Fallback else if old(s.pc).Create? then Watch else Second
      ensures turns == old(turns) + [turn]
    {
      hide IsRun, Obeyed;
      ok := turn.ok && !(s.pc.Watch? && s.variant.Deletion? && s.met);
      if s.pc.Create? {
        Take(turn, Setup(ok), s.(pc := if ok then Watch else Fallback));
      } else {
        Take(turn, Setup(ok), if ok then s.(pc := Second, watched := true) else s.(pc := Fallback));
      }
    }

    method Disturb(cs: seq<Change>)
      requires Valid()
      modifies this
      ensures Valid() && s == AfterAll(old(s), cs) && s.pc == old(s.pc) && turns == old(turns)
    {
      hide IsRun, Obeyed;
      assert cs[..0] == [];
      for i := 0 to |cs|
        invariant Valid() && s == AfterAll(old(s), cs[..i]) && s.pc == old(s.pc) && turns == old(turns)
      {
        assert cs[..i + 1][..i] == cs[..i];
        if cs[i].Fulfil? && !s.met {
          var heard := s.watched && !cs[i].silent;
          Suffer(Meet(heard), Met(s, heard));
        } else if cs[i].Undo? && s.met {
          Suffer(Unmeet, s.(met := false, gap := false));
        } else if cs[i].Unrelated? && s.watched {
          var ends := cs[i].ends || s.variant.Deletion?;
          Suffer(Noise(ends), s.(queue := s.queue + Queued(s.variant), watched := !ends));
        }
      }
      assert cs[..|cs|] == cs;
    }
  }

  /** Where a check that fails leads. */
  predicate Follows(pc: Pc, next: Pc) {
    || (pc.First? && next.Create?) || (pc.Second? && next.Loop?)
    || (pc.Third? && next.Drain?) || (pc.Fallback? && next.Sleep?)
  }

  lemma CheckMove(t: Turn, s: State, next: Pc)
    requires Follows(s.pc, next)
    ensures Own(Check) && Told(t, s, Check) && Next(s, Check, Checked(s, next))
  {
  }

  datatype Result = Success | Timeout | Error

  class Waiter {
    const world: World
    ghost const script: seq<Turn>
    var rest: seq<Turn>
    var finished: bool
    var listening: bool

    /** Every act so far was on the next turn of the script. */
    ghost predicate Valid()
      reads this, world
    {
      world.Valid() && Used(script, world.turns, rest)
    }

    /** Where the run stands between construction and the end of the wait. */
    ghost predicate Ready()
      reads this, world
    {
      && Valid()
      && world.s.pc == if finished then Done(true) else if listening then Loop else Fallback
    }

    method Call() returns (t: Turn)
      requires Valid()
      modifies this`rest, world
      ensures world.Valid() && world.turns == old(world.turns) && Used(script, world.turns + [t], rest)
      ensures world.s == AfterAll(old(world.s), t.before) && world.s.pc == old(world.s.pc)
      ensures if old(rest) == [] then t == OVER && rest == [] else t == old(rest)[0] && rest == old(rest)[1..]
    {
      hide IsRun, Obeyed;
      t := OVER;
      if rest != [] {
        t, rest := rest[0], rest[1..];
      }
      world.Disturb(t.before);
    }

    method CheckCompleted(next: Pc)
      requires Valid() && Follows(world.s.pc, next)
      modifies this`rest, this`finished, world
      ensures Valid() && |rest| <= |old(rest)| && (old(rest) != [] ==> |rest| < |old(rest)|)
      ensures world.s.pc == if finished then Done(true) else next
    {
      hide IsRun, Obeyed, Used, Next, Told, Own, AfterAll, Follows;
      var t := Call();
      finished := world.s.met;
      CheckMove(t, world.s, next);
      world.Take(t, Check, Checked(world.s, next));
    }

    constructor (w: World, script: seq<Turn>)
      requires w.Valid() && w.s.pc.First? && w.turns == []
      modifies w
      ensures world == w && this.script == script && Ready()
    {
      world, this.script, rest, finished, listening := w, script, script, false, false;
      new;
      CheckCompleted(Create);
      if finished { return; }
      Listen();
    }

    /** Creates the instance, adds the watch and checks again, since the condition may have been met in
        between. */
    method Listen()
      requires Valid() && world.s.pc.Create? && !finished && !listening
      modifies this, world
      ensures Ready()
    {
      hide IsRun, Obeyed, Used, AfterAll;
      var made := Call();
      var ok := world.SetUp(made);
      if !ok { return; }
      var added := Call();
      ok := world.SetUp(added);
      if !ok { return; }
      CheckCompleted(Loop);
      listening := !finished;
    }

    /** Reads events until there are none. */
    method ConsumeEvents() returns (ok: bool)
      requires Valid() && world.s.pc.Drain?
      modifies this`rest, world
      ensures Valid() && |rest| <= |old(rest)|
      ensures world.s.pc == if ok then Loop else Fallback
    {
      hide IsRun, Obeyed, Used, AfterAll;
      while true
        invariant Valid() && world.s.pc.Drain? && |rest| <= |old(rest)|
        decreases |rest|
      {
        var t := Call();
        if !t.ok {
          world.Take(t, ReadFails, world.s.(pc := Fallback));
          return false;
        }
        var q := world.s.queue;
        if q == 0 {
          world.Take(t, Read(0), world.s.(pc := Loop));
          return true;
        }
        var n := if 0 < t.n <= q then t.n else 1;
        world.Take(t, Read(n), world.s.(queue := q - n));
      }
    }

    method WaitImpl() returns (r: Result)
      requires Ready()
      modifies this`rest, this`finished, world
      ensures Valid()
      ensures world.s.pc == match r { case Success => Done(true) case Timeout => Done(false) case Error => Fallback }
    {
      hide IsRun, Obeyed, Used, AfterAll;
      if finished { return Success; }
      if !listening { return Error; }
      while true
        invariant Valid() && world.s.pc.Loop?
        decreases |rest|
      {
        var t := Call();
        if t.late {
          world.Take(t, Expire, world.s.(pc := Done(false)));
          return Timeout;
        }
        if t.idle || (t.ok && world.s.queue == 0) {
          world.Take(t, Idle, world.s);
          continue;
        }
        world.Take(t, Poll(t.ok), world.s.(pc := if t.ok then Third else Fallback));
        if !t.ok { return Error; }
        CheckCompleted(Drain);
        if finished { return Success; }
        var ok := ConsumeEvents();
        if !ok { return Error; }
      }
    }

    /** The polling loop of the fallback. */
    method PollForFile() returns (r: bool)
      requires Valid() && world.s.pc.Fallback?
      modifies this`rest, this`finished, world
      ensures Valid() && world.s.pc == Done(r)
    {
      hide IsRun, Obeyed, Used, AfterAll;
      while true
        invariant Valid() && world.s.pc.Fallback?
        decreases |rest|
      {
        CheckCompleted(Sleep);
        if finished { return true; }
        var t := Call();
        if t.late {
          world.Take(t, Expire, world.s.(pc := Done(false)));
          return false;
        }
        world.Take(t, Again, world.s.(pc := Fallback));
      }
    }

    /** Every wait is a run of the machine that does what the script says, and its answer is where the
        run ends: true only if a check found the condition met, false exactly if a look at the clock found
        the time over. */
    method Wait() returns (r: bool)
      requires Ready()
      modifies this`rest, this`finished, world
      ensures Valid() && world.s.pc == Done(r)
      ensures r ==> exists k :: 0 <= k < |world.moves| && world.moves[k].Check? && world.states[k].met
      ensures !r <==> exists i :: 0 <= i < |world.turns|
                                  && LooksLate(world.turns[i], Acts(world.states, world.moves)[i])
    {
      hide Acts, Told, Used;
      var result := WaitImpl();
      if result.Error? {
        r := PollForFile();
      } else {
        r := result.Success?;
      }
      Answer(world.states, world.moves, world.turns, r);
    }
  }

  lemma Answer(states: seq<State>, moves: seq<Move>, turns: seq<Turn>, r: bool)
    requires IsRun(states, moves) && Obeyed(turns, Acts(states, moves)) && states[|moves|].pc == Done(r)
    ensures r ==> exists k :: 0 <= k < |moves| && moves[k].Check? && states[k].met
    ensures !r <==> exists i :: 0 <= i < |turns| && LooksLate(turns[i], Acts(states, moves)[i])
  {
    hide Acts, Told, Next;
    if r {
      var k := SuccessWasSeen(states, moves, |moves|);
      forall i | 0 <= i < |turns| && LooksLate(turns[i], Acts(states, moves)[i])
        ensures false
      {
        LateIsLast(states, moves, turns, i);
      }
    } else {
      EndedLate(states, moves, turns);
    }
  }
}
