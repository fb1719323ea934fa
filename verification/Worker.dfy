/** The Couchbase command worker (src/couchbase/Worker.cpp): a queue behind a
    mutex, any number of producers, one consumer that drains it in batches, and
    a destructor that closes it.  Every critical section, every handling of one
    command and every notification is one atomic step; a step may be taken
    whenever it is enabled, so a run is any interleaving of the threads. */
module Worker {

  /** One submission of a command. */
  type Command = nat

  /** What the consumer did with a command it took from the queue. */
  datatype Event = Sent(cmd: Command) | Rejected(cmd: Command) | Skipped(cmd: Command)

  datatype Phase =
    | Deciding  // about to lock the queue and test the wait condition
    | Asleep    // waiting on the condition variable
    | Sending   // mutex released, scheduling the commands of `batch`
    | Draining  // closing: rejecting the commands of `batch` with the mutex held
    | Returned

  datatype State = State(
    close: bool,                // m_close
    queue: seq<Command>,        // m_commandQueue
    phase: Phase,
    batch: seq<Command>,        // what is left of the batch in hand
    notifications: nat,         // threads between their critical section and notify_one
    cancelled: set<Command>,
    submitted: seq<Command>,    // history: in order of arrival
    accepted: seq<Command>,     // history: pushed onto the queue
    refused: seq<Command>,      // history: rejected by schedule itself
    handled: seq<Event>)        // history: what the consumer did, in order

  datatype Action =
    | Schedule(cmd: Command)
    | Close
    | Notify
    | WakeUp
    | Cancel(cmd: Command)
    | Test
    | HandleNext
    | FinishBatch

  const INITIAL := State(false, [], Deciding, [], 0, {}, [], [], [], [])

  /** Only the drain at shutdown keeps the mutex across several steps. */
  predicate MutexFree(s: State) {
    !s.phase.Draining?
  }

  predicate Enabled(s: State, a: Action) {
    match a
    case Schedule(_) => MutexFree(s)
    case Close => MutexFree(s) && !s.close
    case Notify => s.notifications > 0
    case WakeUp => s.phase.Asleep?
    case Cancel(_) => true
    case Test => s.phase.Deciding?
    case HandleNext => (s.phase.Sending? || s.phase.Draining?) && s.batch != []
    case FinishBatch => (s.phase.Sending? || s.phase.Draining?) && s.batch == []
  }

  function Handle(s: State, cmd: Command): Event {
    if cmd in s.cancelled then Skipped(cmd) else if s.phase.Draining? then Rejected(cmd) else Sent(cmd)
  }

  function Step(s: State, a: Action): State
    requires Enabled(s, a)
  {
    match a
    case Schedule(cmd) =>
      var s' := s.(submitted := s.submitted + [cmd], notifications := s.notifications + 1);
      if s.close then s'.(refused := s.refused + [cmd])
      else s'.(queue := s.queue + [cmd], accepted := s.accepted + [cmd])
    case Close => s.(close := true, notifications := s.notifications + 1)
    case Notify => s.(notifications := s.notifications - 1, phase := if s.phase.Asleep? then Deciding else s.phase)
    case WakeUp => s.(phase := Deciding)
    case Cancel(cmd) => s.(cancelled := s.cancelled + {cmd})
    case Test =>
      if s.queue == [] && !s.close then s.(phase := Asleep)
      else s.(batch := s.queue, queue := [], phase := if s.close then Draining else Sending)
    case HandleNext => s.(batch := s.batch[1..], handled := s.handled + [Handle(s, s.batch[0])])
    case FinishBatch => s.(phase := if s.phase.Draining? then Returned else Deciding)
  }

  // ----- Runs -----

  ghost predicate IsRun(s: State, actions: seq<Action>, s': State)
    decreases |actions|
  {
    if actions == [] then s' == s
    else Enabled(s, actions[0]) && IsRun(Step(s, actions[0]), actions[1..], s')
  }

  ghost predicate Reachable(s: State) {
    exists actions :: IsRun(INITIAL, actions, s)
  }

  // ----- What every step keeps -----

  function Commands(events: seq<Event>): (cmds: seq<Command>)
    ensures |cmds| == |events| && forall k :: 0 <= k < |events| ==> cmds[k] == events[k].cmd
  {
    seq(|events|, k requires 0 <= k < |events| => events[k].cmd)
  }

  /** Conservation and order: what was accepted is handled, in hand or queued,
      in that order; what was submitted was accepted until the worker was closed, and
      refused from then on. */
  ghost predicate Conserved(s: State) {
    && s.accepted == Commands(s.handled) + s.batch + s.queue
    && s.submitted == s.accepted + s.refused
  }

  /** Only cancelled commands are skipped; only a closed worker rejects or refuses. */
  ghost predicate Justified(s: State) {
    && (forall e :: e in s.handled ==> (e.Skipped? ==> e.cmd in s.cancelled) && (e.Rejected? ==> s.close))
    && (s.refused != [] ==> s.close)
  }

  /** Where the commands can be in each phase, and that no wake-up is lost:
      whoever made the wait condition true has yet to notify. */
  ghost predicate Phased(s: State) {
    && (s.phase.Draining? || s.phase.Returned? ==> s.close && s.queue == [])
    && (s.phase.Deciding? || s.phase.Asleep? || s.phase.Returned? ==> s.batch == [])
    && (s.phase.Asleep? && (s.queue != [] || s.close) ==> s.notifications > 0)
  }

  ghost predicate Invariant(s: State) {
    Conserved(s) && Justified(s) && Phased(s)
  }

  lemma ScheduleConserves(s: State, cmd: Command)
    requires Conserved(s) && Justified(s) && MutexFree(s)
    ensures Conserved(Step(s, Schedule(cmd)))
  {
    var front := Commands(s.handled) + s.batch;
    hide Commands;
    assert front + s.queue + [cmd] == front + (s.queue + [cmd]);
  }

  lemma TestConserves(s: State)
    requires Conserved(s) && Phased(s) && s.phase.Deciding?
    ensures Conserved(Step(s, Test))
  {
    hide Commands;
    assert Commands(s.handled) + [] + s.queue == Commands(s.handled) + s.queue + [];
  }

  lemma HandleConserves(s: State)
    requires Conserved(s) && Enabled(s, HandleNext)
    ensures Conserved(Step(s, HandleNext))
  {
    var cmd, rest := s.batch[0], s.batch[1..];
    var front := Commands(s.handled);
    assert Commands(s.handled + [Handle(s, cmd)]) == front + [cmd];
    hide Commands;
    assert s.batch == [cmd] + rest;
    assert front + ([cmd] + rest) + s.queue == front + [cmd] + rest + s.queue;
  }

  lemma StepConserves(s: State, a: Action)
    requires Invariant(s) && Enabled(s, a)
    ensures Conserved(Step(s, a))
  {
    match a
    case Schedule(cmd) => ScheduleConserves(s, cmd);
    case Test => TestConserves(s);
    case HandleNext => HandleConserves(s);
    case _ => hide Commands;
  }

  lemma StepJustifies(s: State, a: Action)
    requires Justified(s) && Phased(s) && Enabled(s, a)
    ensures Justified(Step(s, a))
  {
  }

  lemma StepPhases(s: State, a: Action)
    requires Phased(s) && Enabled(s, a)
    ensures Phased(Step(s, a))
  {
  }

  lemma StepKeepsInvariant(s: State, a: Action)
    requires Invariant(s) && Enabled(s, a)
    ensures Invariant(Step(s, a))
  {
    StepConserves(s, a);
    StepJustifies(s, a);
    StepPhases(s, a);
  }

  lemma {:induction false} RunKeepsInvariant(s: State, actions: seq<Action>, s': State)
    requires Invariant(s) && IsRun(s, actions, s')
    ensures Invariant(s')
    decreases |actions|
  {
    if actions != [] {
      StepKeepsInvariant(s, actions[0]);
      RunKeepsInvariant(Step(s, actions[0]), actions[1..], s');
    }
  }

  lemma ReachableInvariant(s: State)
    requires Reachable(s)
    ensures Invariant(s)
  {
    var actions :| IsRun(INITIAL, actions, s);
    RunKeepsInvariant(INITIAL, actions, s);
  }

  // ----- Conservation -----

  /** In every reachable state a command submitted once is in exactly one of the
      queue, the batch in hand, the handled and the refused commands, once; and
      the handled commands are the first accepted ones, in acceptance order. */
  lemma ExactlyOnePlace(s: State, c: Command)
    requires Reachable(s) && multiset(s.submitted)[c] == 1
    ensures multiset(Commands(s.handled))[c] + multiset(s.batch)[c] + multiset(s.queue)[c] + multiset(s.refused)[c] == 1
    ensures Commands(s.handled) <= s.accepted
  {
    ReachableInvariant(s);
    hide Commands;
    assert multiset(s.accepted) == multiset(Commands(s.handled)) + multiset(s.batch) + multiset(s.queue);
  }

  // ----- What a run does to the commands -----

  /** The commands that the steps of a run hand to the worker, in order. */
  ghost function Arrivals(actions: seq<Action>): seq<Command> {
    if actions == [] then []
    else (if actions[0].Schedule? then [actions[0].cmd] else []) + Arrivals(actions[1..])
  }

  /** The histories are what happened: submitted is what arrived, cancelled what
      somebody cancelled, and the worker is closed once somebody has closed it. */
  lemma {:induction false} HistoriesAreTrue(s: State, actions: seq<Action>, s': State)
    requires IsRun(s, actions, s')
    ensures s'.submitted == s.submitted + Arrivals(actions)
    ensures forall c :: c in s'.cancelled <==> c in s.cancelled || Cancel(c) in actions
    ensures s'.close <==> s.close || Close in actions
    decreases |actions|
  {
    if actions != [] {
      var a, rest := actions[0], actions[1..];
      HistoriesAreTrue(Step(s, a), rest, s');
      assert forall b :: b in actions <==> b == a || b in rest;
      hide IsRun, Handle;
      var first := if a.Schedule? then [a.cmd] else [];
      assert Step(s, a).submitted == s.submitted + first;
      assert s.submitted + first + Arrivals(rest) == s.submitted + (first + Arrivals(rest));
    }
  }

  /** A cancelled command is never sent and never rejected, whatever happens after;
      and what nobody has cancelled by the time it is handled is not skipped. */
  lemma {:induction false} CancelledIsSkipped(s: State, actions: seq<Action>, s': State)
    requires IsRun(s, actions, s')
    ensures s.handled <= s'.handled && s.cancelled <= s'.cancelled
    ensures forall k :: |s.handled| <= k < |s'.handled| ==>
              && (s'.handled[k].cmd in s.cancelled ==> s'.handled[k].Skipped?)
              && (s'.handled[k].Skipped? ==> s'.handled[k].cmd in s'.cancelled)
    decreases |actions|
  {
    if actions != [] {
      CancelledIsSkipped(Step(s, actions[0]), actions[1..], s');
    }
  }

  /** What is left of a batch is handled in order: sent unless cancelled, even if the
      worker is closed meanwhile; rejected unless cancelled if it was taken after that. */
  lemma {:induction false} BatchIsHandled(s: State, actions: seq<Action>, s': State)
    requires IsRun(s, actions, s') && (s.phase.Sending? || s.phase.Draining?)
    ensures s.handled <= s'.handled
    ensures forall k :: 0 <= k < |s.batch| && |s.handled| + k < |s'.handled| ==>
              var event := s'.handled[|s.handled| + k];
              && event.cmd == s.batch[k]
              && if s.phase.Sending? then !event.Rejected? else !event.Sent?
    decreases |actions|
  {
    CancelledIsSkipped(s, actions, s');
    if actions != [] && s.batch != [] {
      var t := Step(s, actions[0]);
      BatchIsHandled(t, actions[1..], s');
      if actions[0].HandleNext? {
        forall k | 0 <= k < |s.batch| && |s.handled| + k < |s'.handled|
          ensures var event := s'.handled[|s.handled| + k];
                  event.cmd == s.batch[k] && if s.phase.Sending? then !event.Rejected? else !event.Sent?
        {
          if k > 0 {
            assert |s.handled| + k == |t.handled| + (k - 1) && s.batch[k] == t.batch[k - 1];
          } else {
            assert s'.handled[|s.handled|] == t.handled[|s.handled|];
          }
        }
      }
    }
  }

  /** Whatever is queued when an open worker turns to its queue will not be rejected,
      even if the worker is closed right after. */
  lemma TakenIsNotRejected(s: State, actions: seq<Action>, s': State)
    requires s.phase.Deciding? && !s.close && s.queue != [] && IsRun(Step(s, Test), actions, s')
    ensures s.handled <= s'.handled
    ensures forall k :: 0 <= k < |s.queue| && |s.handled| + k < |s'.handled| ==>
              s'.handled[|s.handled| + k].cmd == s.queue[k] && !s'.handled[|s.handled| + k].Rejected?
  {
    var t := Step(s, Test);
    BatchIsHandled(t, actions, s');
    assert t.batch == s.queue && t.handled == s.handled && t.phase.Sending?;
    forall k | 0 <= k < |s.queue| && |s.handled| + k < |s'.handled|
      ensures s'.handled[|s.handled| + k].cmd == s.queue[k] && !s'.handled[|s.handled| + k].Rejected?
    {
      assert s'.handled[|t.handled| + k].cmd == t.batch[k];
    }
  }

  // ----- Shutdown -----

  /** Once the worker is closed nothing enters the queue any more, and all that
      is still sent is what is left of the batch in hand. */
  lemma AfterClose(s: State, actions: seq<Action>, s': State)
    requires Reachable(s) && s.close && IsRun(s, actions, s')
    ensures s'.close && s'.accepted == s.accepted && (s'.queue == s.queue || s'.queue == [])
    ensures s.handled <= s'.handled
    ensures forall k :: |s.handled| <= k < |s'.handled| && s'.handled[k].Sent? ==>
              s.phase.Sending? && k < |s.handled| + |s.batch|
  {
    ReachableInvariant(s);
    ClosedRun(s, actions, s');
  }

  lemma {:induction false} ClosedRun(s: State, actions: seq<Action>, s': State)
    requires Phased(s) && s.close && IsRun(s, actions, s')
    ensures s'.close && s'.accepted == s.accepted && (s'.queue == s.queue || s'.queue == [])
    ensures s.handled <= s'.handled
    ensures forall k :: |s.handled| <= k < |s'.handled| && s'.handled[k].Sent? ==>
              s.phase.Sending? && k < |s.handled| + |s.batch|
    decreases |actions|
  {
    if actions != [] {
      StepPhases(s, actions[0]);
      ClosedRun(Step(s, actions[0]), actions[1..], s');
    }
  }

  /** When the consumer has returned, every accepted command was handled, and
      each one that nobody cancelled was either sent or rejected. */
  lemma ReturnedHandledAll(s: State)
    requires Reachable(s) && s.phase.Returned?
    ensures s.queue == [] && s.batch == [] && |s.handled| == |s.accepted|
    ensures forall k :: 0 <= k < |s.accepted| ==>
              s.handled[k].cmd == s.accepted[k] && (s.accepted[k] !in s.cancelled ==> !s.handled[k].Skipped?)
  {
    ReachableInvariant(s);
    assert s.accepted == Commands(s.handled);
    forall k | 0 <= k < |s.accepted|
      ensures s.handled[k].cmd == s.accepted[k] && (s.accepted[k] !in s.cancelled ==> !s.handled[k].Skipped?)
    {
      assert s.handled[k] in s.handled;
    }
  }

  /** The steps a closed worker takes by itself. */
  predicate Internal(a: Action) {
    a.Notify? || a.WakeUp? || a.Test? || a.HandleNext? || a.FinishBatch?
  }

  function StepsLeft(s: State): nat {
    s.notifications + match s.phase
      case Sending => |s.batch| + |s.queue| + 3
      case Asleep => |s.queue| + 3
      case Deciding => |s.queue| + 2
      case Draining => |s.batch| + 1
      case Returned => 0
  }

  /** Shutdown cannot get stuck and cannot go on for ever: until the consumer has
      returned some step is possible that needs no spurious wake-up, because a
      sleeping consumer has a notification coming; and each step brings the end nearer. */
  lemma ShutdownTerminates(s: State)
    requires Reachable(s) && s.close
    ensures forall a :: Internal(a) && Enabled(s, a) ==> StepsLeft(Step(s, a)) < StepsLeft(s)
    ensures !s.phase.Returned? ==> exists a :: Internal(a) && !a.WakeUp? && Enabled(s, a)
  {
    ReachableInvariant(s);
    hide Conserved, Justified;
    forall a | Internal(a) && Enabled(s, a)
      ensures StepsLeft(Step(s, a)) < StepsLeft(s)
    {
      StepIsProgress(s, a);
    }
    if !s.phase.Returned? {
      var a := if s.phase.Asleep? then Notify else if s.phase.Deciding? then Test else if s.batch == [] then FinishBatch else HandleNext;
      assert Internal(a) && !a.WakeUp? && Enabled(s, a);
    }
  }

  lemma StepIsProgress(s: State, a: Action)
    requires s.close && Phased(s) && Internal(a) && Enabled(s, a)
    ensures StepsLeft(Step(s, a)) < StepsLeft(s)
  {
  }

  // ----- The object -----

  class Worker {
    var m_close: bool
    var m_commandQueue: seq<Command>
    var batch: seq<Command>
    var phase: Phase
    var cancelled: set<Command>
    ghost var notifications: nat
    ghost var submitted: seq<Command>
    ghost var accepted: seq<Command>
    ghost var refused: seq<Command>
    ghost var handled: seq<Event>

    ghost function View(): State
      reads this
    {
      State(m_close, m_commandQueue, phase, batch, notifications, cancelled, submitted, accepted, refused, handled)
    }

    constructor ()
      ensures View() == INITIAL
    {
      m_close, m_commandQueue, batch, phase, cancelled := false, [], [], Deciding, {};
      notifications, submitted, accepted, refused, handled := 0, [], [], [], [];
    }

    /** The critical section of `schedule`. */
    method Schedule(command: Command)
      requires MutexFree(View())
      modifies this
      ensures View() == Step(old(View()), Action.Schedule(command))
    {
      submitted, notifications := submitted + [command], notifications + 1;
      if m_close {
        refused := refused + [command];
      } else {
        m_commandQueue := m_commandQueue + [command];
        accepted := accepted + [command];
      }
    }

    /** The critical section of the destructor. */
    method Close()
      requires MutexFree(View()) && !m_close
      modifies this
      ensures View() == Step(old(View()), Action.Close)
    {
      m_close, notifications := true, notifications + 1;
    }

    /** The synchronized section of `execute`, up to the loop that rejects. */
    method TakeBatch()
      requires phase.Deciding?
      modifies this
      ensures View() == Step(old(View()), Test)
    {
      if m_commandQueue == [] && !m_close {
        phase := Asleep;
        return;
      }
      batch := m_commandQueue;
      m_commandQueue := [];
      phase := if m_close then Draining else Sending;
    }

    /** One turn of either loop over the batch. */
    method HandleCommand()
      requires (phase.Sending? || phase.Draining?) && batch != []
      modifies this
      ensures View() == Step(old(View()), HandleNext)
    {
      var command := batch[0];
      if command in cancelled {
        handled := handled + [Skipped(command)];
      } else if phase.Draining? {
        handled := handled + [Rejected(command)];
      } else {
        handled := handled + [Sent(command)];
      }
      batch := batch[1..];
    }

    /** Closing without interference: with the mutex held the whole batch is
        rejected, except for what had been cancelled, and the consumer returns. */
    method Drain()
      requires phase.Draining?
      modifies this
      ensures phase.Returned? && batch == []
      ensures handled == old(handled) + Verdicts(old(batch), cancelled)
      ensures m_close == old(m_close) && m_commandQueue == old(m_commandQueue) && cancelled == old(cancelled)
      ensures accepted == old(accepted) && submitted == old(submitted) && refused == old(refused)
    {
      assert old(handled) + Verdicts([], cancelled) == old(handled);
      while batch != []
        invariant phase.Draining?
        invariant handled + Verdicts(batch, cancelled) == old(handled) + Verdicts(old(batch), cancelled)
        invariant m_close == old(m_close) && m_commandQueue == old(m_commandQueue) && cancelled == old(cancelled)
        invariant accepted == old(accepted) && submitted == old(submitted) && refused == old(refused)
        decreases |batch|
      {
        HandleCommand();
      }
      phase := Returned;
    }
  }

  /** What draining a batch records. */
  ghost function Verdicts(batch: seq<Command>, cancelled: set<Command>): seq<Event> {
    if batch == [] then []
    else [if batch[0] in cancelled then Skipped(batch[0]) else Rejected(batch[0])] + Verdicts(batch[1..], cancelled)
  }
}
