/** The polling and the dispatching thread as interleaved atomic steps over the
    ring, the mutex, the stop request and the reassembly queue's empty flag. */
module Pipeline {
  import opened Common
  import opened IndicationRing

  /** A partially received packet, whatever identifies it. */
  type PacketId = nat

  /** Where the dispatching thread is.  It holds the queue lock except in Waiting
      and while the dispatch function runs (Handling, Adding, Added). */
  datatype Dispatcher =
    | Checking                        // at the top of its loop
    | Waiting                         // in the timed wait
    | Collecting                      // in the collector, after waking up
    | Handling                        // in the dispatch function
    | Adding                          // ... which has cleared the reassembly flag
    | Added                           // ... and has filed the fragment
    | Dispatched                      // back, with the lock
    | Advanced                        // has stored the new read index
  {
    predicate HoldsLock() {
      Checking? || Collecting? || Dispatched? || Advanced?
    }

    /** The slot at the read index is being used. */
    predicate UsesSlot() {
      Handling? || Adding? || Added? || Dispatched?
    }
  }

  /** Where the polling thread is. */
  datatype Poller =
    | Sleeping
    | AskingReassembly                // stop requested, ring seen empty
    | Deciding                        // about to work out its budget
    | Looked(readView: nat)           // has its view of the read index
    | Fetching(budget: nat)           // in get_indication, may still push
    | Stopped

  /** Besides the shared variables: how many indications were pushed and taken
      off, all that were pushed, all that were dispatched, what was dropped, the
      slot content handed to the dispatch function, and what the poller last saw
      of the take-off count while it held the lock. */
  datatype State = State(
    ring: Ring,
    pushed: seq<Indication>,
    taken: nat,
    dispatched: seq<Indication>,
    dropped: seq<Indication>,
    held: Indication,
    seen: nat,
    dispatcher: Dispatcher,
    poller: Poller,
    stopRequested: bool,
    partial: set<PacketId>,
    reassemblyEmpty: bool)

  ghost predicate Init(s: State) {
    && s.ring.Valid() && s.ring.write == 0 && s.ring.read == 0 && s.ring.empty
    && s.pushed == [] && s.taken == 0 && s.dispatched == [] && s.dropped == [] && s.seen == 0
    && s.dispatcher == Checking && s.poller == Sleeping && !s.stopRequested
    && s.partial == {} && s.reassemblyEmpty
  }

  datatype Step =
    // dispatching thread
    | Wait | WakeUp | CollectOne(id: PacketId) | CollectFlag | LeaveCollector
    | TakeOldest | BeginFragment | FileFragment(id: PacketId) | SkipFragment | DropPacket(id: PacketId) | SetFlag
    | ReturnFromDispatch
    | StoreRead | StoreEmpty
    // polling thread
    | WakePoller | AskReassembly | Look(view: nat) | WorkOutBudget | PushOne(x: Indication) | EndFetch
    // closing
    | RequestStop

  ghost predicate Next(s: State, step: Step, s': State)
    requires s.ring.Valid()
  {
    match step
    case Wait =>
      s.dispatcher == Checking && s.ring.empty && s' == s.(dispatcher := Waiting)
    case WakeUp =>
      s.dispatcher == Waiting && s' == s.(dispatcher := Collecting)
    case CollectOne(id) =>
      s.dispatcher == Collecting && s' == s.(partial := s.partial - {id})
    case CollectFlag =>
      s.dispatcher == Collecting && s' == s.(reassemblyEmpty := s.partial == {})
    case LeaveCollector =>
      s.dispatcher == Collecting && s' == s.(dispatcher := Checking)
    case TakeOldest =>
      s.dispatcher == Checking && !s.ring.empty
      && s' == s.(dispatcher := Handling, held := s.ring.slots[s.ring.read])
    case BeginFragment =>
      s.dispatcher == Handling && s' == s.(dispatcher := Adding, reassemblyEmpty := false)
    case FileFragment(id) =>
      s.dispatcher == Adding && s' == s.(dispatcher := Added, partial := s.partial + {id})
    case SkipFragment =>
      s.dispatcher == Adding && s' == s.(dispatcher := Added)
    case DropPacket(id) =>
      s.dispatcher == Added && s' == s.(partial := s.partial - {id})
    case SetFlag =>
      s.dispatcher == Added && s' == s.(reassemblyEmpty := s.partial == {})
    case ReturnFromDispatch =>
      // The slot is read up to this point; what was dispatched is what it holds now.
      (s.dispatcher == Handling || s.dispatcher == Added)
      && s' == s.(dispatcher := Dispatched, dispatched := s.dispatched + [s.ring.slots[s.ring.read]])
    case StoreRead =>
      s.dispatcher == Dispatched && s' == s.(dispatcher := Advanced, ring := s.ring.Advance(), taken := s.taken + 1)
    case StoreEmpty =>
      s.dispatcher == Advanced && s' == s.(dispatcher := Checking, ring := s.ring.Settle())
    case WakePoller =>
      s.poller == Sleeping
      && s' == s.(poller := if !s.stopRequested then Deciding
                            else if !s.ring.empty then Sleeping
                            else AskingReassembly)
    case AskReassembly =>
      s.poller == AskingReassembly && s' == s.(poller := if s.reassemblyEmpty then Stopped else Deciding)
    case Look(view) =>
      // The view may be any value the read index had since the poller last held the lock.
      s.poller == Deciding && s.seen <= view <= s.taken
      && s' == s.(poller := if !s.ring.empty && s.ring.write == Slot(view) then Sleeping else Looked(view))
    case WorkOutBudget =>
      s.poller.Looked?
      && var room := s.ring.FreeRoom(Slot(s.poller.readView));
         room >= 0
         && s' == s.(poller := Fetching(if s.stopRequested then 1 else Minimum(MAX_NUMBER_INDICATION, room)))
    case PushOne(x) =>
      s.poller.Fetching? && s.poller.budget > 0 && !s.dispatcher.HoldsLock()
      && s' == s.(poller := Fetching(s.poller.budget - 1),
                  ring := s.ring.Push(x),
                  pushed := if s.ring.Full() then s.pushed else s.pushed + [x],
                  dropped := if s.ring.Full() then s.dropped + [x] else s.dropped,
                  seen := s.taken)
    case EndFetch =>
      s.poller.Fetching? && s' == s.(poller := Sleeping)
    case RequestStop =>
      s' == s.(stopRequested := true)
  }

  // -------------------------------------------------------------- invariant

  function Live(s: State): int { |s.pushed| - s.taken }

  /** The indexes are the counts of pushes and take-offs, folded to the ring. */
  ghost predicate Counted(s: State) {
    && s.ring.Valid()
    && s.taken <= |s.pushed| <= s.seen + MAX_NUMBER_INDICATION_QUEUE && s.seen <= s.taken
    && s.ring.write == Slot(|s.pushed|) && s.ring.read == Slot(s.taken)
    && (s.ring.empty ==> Live(s) == 0)
    && (!s.ring.empty ==> Live(s) > 0 || s.dispatcher == Advanced)
    && (s.dispatcher == Advanced ==> Live(s) < MAX_NUMBER_INDICATION_QUEUE)
  }

  /** Every indication not yet taken off is in its slot. */
  ghost predicate Stored(s: State)
    requires s.ring.Valid()
  {
    forall i: nat :: s.taken <= i < |s.pushed| ==> s.ring.slots[Slot(i)] == s.pushed[i]
  }

  /** What was dispatched is what was taken off, in push order; a slot in use is
      still the one that was handed out. */
  ghost predicate InOrder(s: State) {
    && s.taken <= |s.pushed|
    && (s.dispatcher.UsesSlot() ==> s.taken < |s.pushed| && s.held == s.pushed[s.taken])
    && s.dispatched == s.pushed[..s.taken] + (if s.dispatcher == Dispatched then [s.pushed[s.taken]] else [])
  }

  /** A budget never exceeds the free slots. */
  ghost predicate Budgeted(s: State) {
    && s.dropped == []
    && (s.poller.Looked? ==>
          && s.seen <= s.poller.readView <= s.taken
          && (s.ring.write == Slot(s.poller.readView) ==> s.ring.empty))
    && (s.poller.Fetching? ==> s.poller.budget + Live(s) <= MAX_NUMBER_INDICATION_QUEUE)
  }

  /** The reassembly flag tells the truth when it says empty; the dispatching
      thread touches the table only with the flag cleared, except to remove. */
  ghost predicate Flagged(s: State) {
    && (s.reassemblyEmpty ==> s.partial == {})
    && (s.dispatcher == Adding ==> !s.reassemblyEmpty)
    && (s.ring.empty ==> s.dispatcher in {Checking, Waiting, Collecting} || s.dispatcher == Advanced)
    && (s.poller == AskingReassembly ==> s.ring.empty)
    && (s.poller == Stopped ==> s.ring.empty && s.partial == {})
  }

  ghost predicate Inv(s: State) {
    Counted(s) && Stored(s) && InOrder(s) && Budgeted(s) && Flagged(s)
  }

  lemma InitHolds(s: State)
    requires Init(s)
    ensures Inv(s)
  {}

  /** The free room computed from any admissible view is at most what is free. */
  lemma FreeRoomIsFree(s: State, view: nat)
    requires Counted(s) && s.seen <= view <= s.taken
    requires s.ring.write == Slot(view) ==> s.ring.empty
    ensures var room := s.ring.FreeRoom(Slot(view));
            0 < room && room + Live(s) <= MAX_NUMBER_INDICATION_QUEUE
  {
    if !s.ring.empty {
      var w := |s.pushed|;
      if w - view < MAX_NUMBER_INDICATION_QUEUE { SlotsDiffer(view, w); }
      Turn(view, w);
    }
  }

  /** The slots of two positions tell their distance, up to a full turn. */
  lemma Turn(i: nat, j: nat)
    requires i < j <= i + MAX_NUMBER_INDICATION_QUEUE
    ensures j - i == if Slot(j) > Slot(i) then Slot(j) - Slot(i) else MAX_NUMBER_INDICATION_QUEUE - (Slot(i) - Slot(j))
  {}

  /** A push never meets the full ring. */
  lemma PushFindsRoom(s: State, x: Indication, s': State)
    requires Inv(s) && Next(s, PushOne(x), s')
    ensures !s.ring.Full() && Live(s) < MAX_NUMBER_INDICATION_QUEUE && s'.pushed == s.pushed + [x]
  {
    hide Slot;
    if Live(s) > 0 {
      SlotsDiffer(s.taken, |s.pushed|);
    }
  }

  lemma PushKeepsInv(s: State, x: Indication, s': State)
    requires Inv(s) && Next(s, PushOne(x), s')
    ensures Inv(s')
  {
    hide Slot;
    var w := |s.pushed|;
    PushFindsRoom(s, x, s');
    SlotStep(w);
    assert s'.pushed[..s.taken] == s.pushed[..s.taken];
    forall i: nat | s'.taken <= i < |s'.pushed|
      ensures s'.ring.slots[Slot(i)] == s'.pushed[i]
    {
      SlotsDiffer(i, w);
    }
  }

  lemma StoreReadKeepsInv(s: State, s': State)
    requires Inv(s) && Next(s, StoreRead, s')
    ensures Inv(s')
  {
    hide Slot;
    SlotStep(s.taken);
    assert s'.pushed[..s'.taken] == s.pushed[..s.taken] + [s.pushed[s.taken]];
  }

  lemma StoreEmptyKeepsInv(s: State, s': State)
    requires Inv(s) && Next(s, StoreEmpty, s')
    ensures Inv(s')
  {
    if 0 < Live(s) < MAX_NUMBER_INDICATION_QUEUE {
      SlotsDiffer(s.taken, |s.pushed|);
    }
  }

  predicate Local(step: Step) {
    !step.PushOne? && !step.StoreRead? && !step.StoreEmpty?
  }

  /** Steps that do not touch the ring. */
  lemma LocalLeavesRing(s: State, step: Step, s': State)
    requires s.ring.Valid() && Next(s, step, s') && Local(step)
    ensures s'.ring == s.ring && s'.pushed == s.pushed && s'.taken == s.taken && s'.seen == s.seen
    ensures s'.dropped == s.dropped
    ensures s'.dispatcher == Advanced <==> s.dispatcher == Advanced
  {
    hide Slot, Minimum;
  }

  lemma LocalKeepsCounted(s: State, step: Step, s': State)
    requires Counted(s) && Next(s, step, s') && Local(step)
    ensures Counted(s')
  {
    hide Next, Slot;
    LocalLeavesRing(s, step, s');
  }

  lemma LocalKeepsStored(s: State, step: Step, s': State)
    requires s.ring.Valid() && Stored(s) && Next(s, step, s') && Local(step)
    ensures s'.ring.Valid() && Stored(s')
  {
    hide Next, Slot, Local;
    LocalLeavesRing(s, step, s');
  }

  /** A step of the dispatching thread that leaves the ring alone. */
  predicate Dispatches(step: Step) {
    || step in {Wait, WakeUp, CollectFlag, LeaveCollector, TakeOldest, BeginFragment, SkipFragment, SetFlag}
    || step.ReturnFromDispatch? || step.CollectOne? || step.FileFragment? || step.DropPacket?
  }

  lemma OthersLeaveDispatcher(s: State, step: Step, s': State)
    requires s.ring.Valid() && Next(s, step, s') && Local(step) && !Dispatches(step)
    ensures s'.dispatcher == s.dispatcher && s'.held == s.held && s'.dispatched == s.dispatched
    ensures s'.partial == s.partial && s'.reassemblyEmpty == s.reassemblyEmpty
  {
    hide Slot, Minimum;
  }

  lemma DispatchesLeavesPoller(s: State, step: Step, s': State)
    requires s.ring.Valid() && Next(s, step, s') && Dispatches(step)
    ensures s'.poller == s.poller
  {
    hide Slot;
  }

  lemma LocalKeepsInOrder(s: State, step: Step, s': State)
    requires Counted(s) && Stored(s) && InOrder(s) && Next(s, step, s') && Local(step)
    ensures InOrder(s')
  {
    hide Slot;
    LocalLeavesRing(s, step, s');
    if !Dispatches(step) {
      hide Next, Counted, Stored;
      OthersLeaveDispatcher(s, step, s');
    }
  }

  lemma LocalKeepsBudgeted(s: State, step: Step, s': State)
    requires Counted(s) && Budgeted(s) && Next(s, step, s') && Local(step)
    ensures Budgeted(s')
  {
    hide Slot;
    LocalLeavesRing(s, step, s');
    if Dispatches(step) {
      hide Next, Counted;
      DispatchesLeavesPoller(s, step, s');
    } else if step == WorkOutBudget {
      FreeRoomIsFree(s, s.poller.readView);
    }
  }

  lemma LocalKeepsFlagged(s: State, step: Step, s': State)
    requires s.ring.Valid() && Flagged(s) && Next(s, step, s') && Local(step)
    ensures Flagged(s')
  {
    hide Slot, Minimum;
    LocalLeavesRing(s, step, s');
    if Dispatches(step) {
      DispatchesLeavesPoller(s, step, s');
    } else {
      OthersLeaveDispatcher(s, step, s');
    }
  }

  lemma LocalKeepsInv(s: State, step: Step, s': State)
    requires Inv(s) && Next(s, step, s') && Local(step)
    ensures Inv(s')
  {
    hide Next, Counted, Stored, InOrder, Budgeted, Flagged, Local;
    ValidRing(s);
    LocalKeepsCounted(s, step, s');
    LocalKeepsStored(s, step, s');
    LocalKeepsInOrder(s, step, s');
    LocalKeepsBudgeted(s, step, s');
    LocalKeepsFlagged(s, step, s');
  }

  lemma ValidRing(s: State)
    requires Counted(s)
    ensures s.ring.Valid()
  {}

  lemma NextKeepsInv(s: State, step: Step, s': State)
    requires Inv(s) && Next(s, step, s')
    ensures Inv(s')
  {
    hide Inv, Next;
    if step.PushOne? {
      PushKeepsInv(s, step.x, s');
    } else if step.StoreRead? {
      StoreReadKeepsInv(s, s');
    } else if step.StoreEmpty? {
      StoreEmptyKeepsInv(s, s');
    } else {
      LocalKeepsInv(s, step, s');
    }
  }

  // ------------------------------------------------------------------- runs

  /** A run: one state more than steps, from an initial state. */
  ghost predicate Run(states: seq<State>, steps: seq<Step>) {
    && |states| == |steps| + 1 && Init(states[0])
    && (forall i :: 0 <= i < |states| ==> states[i].ring.Valid())
    && (forall i :: 0 <= i < |steps| ==> Next(states[i], steps[i], states[i + 1]))
  }

  lemma {:induction false} RunKeepsInv(states: seq<State>, steps: seq<Step>, i: nat)
    requires Run(states, steps) && i < |states|
    ensures Inv(states[i])
  {
    hide Inv, Next, Init;
    if i == 0 {
      InitHolds(states[0]);
    } else {
      RunKeepsInv(states, steps, i - 1);
      NextKeepsInv(states[i - 1], steps[i - 1], states[i]);
    }
  }

  /** No acknowledged indication is ever dropped, however the threads interleave:
      whenever one is pushed, the ring has room for it and for the rest of the
      budget. */
  lemma NothingDropped(states: seq<State>, steps: seq<Step>, i: nat)
    requires Run(states, steps) && i < |states|
    ensures states[i].dropped == []
    ensures i < |steps| && steps[i].PushOne? ==>
              !states[i].ring.Full() && states[i + 1].pushed == states[i].pushed + [steps[i].x]
    ensures states[i].poller.Fetching? ==>
              states[i].poller.budget <= MAX_NUMBER_INDICATION_QUEUE - (|states[i].pushed| - states[i].taken)
  {
    hide Inv, Next, Init;
    RunKeepsInv(states, steps, i);
    BudgetFits(states[i]);
    if i < |steps| && steps[i].PushOne? {
      PushFindsRoom(states[i], steps[i].x, states[i + 1]);
    }
  }

  lemma BudgetFits(s: State)
    requires Inv(s)
    ensures s.dropped == []
    ensures s.poller.Fetching? ==> s.poller.budget <= MAX_NUMBER_INDICATION_QUEUE - (|s.pushed| - s.taken)
  {}

  /** What the poller asks for is exactly what its view of the read index leaves free,
      at most 30, and one at a time once a stop is requested. */
  lemma BudgetIsExact(states: seq<State>, steps: seq<Step>, i: nat)
    requires Run(states, steps) && i < |steps| && steps[i] == WorkOutBudget
    ensures var s := states[i];
            && s.poller.Looked? && s.poller.readView <= |s.pushed| <= s.poller.readView + 60
            && var free := if s.ring.empty then 60 else 60 - (|s.pushed| - s.poller.readView);
               states[i + 1].poller == Fetching(if s.stopRequested then 1 else if free < 30 then free else 30)
  {
    hide Init, Stored, InOrder, Flagged, Ring.FreeRoom;
    RunKeepsInv(states, steps, i);
    var s := states[i];
    assert Next(s, steps[i], states[i + 1]);
    RoomOfView(s, s.poller.readView);
  }

  lemma RoomOfView(s: State, view: nat)
    requires Counted(s) && s.seen <= view <= s.taken
    requires s.ring.write == Slot(view) ==> s.ring.empty
    ensures s.ring.FreeRoom(Slot(view)) == if s.ring.empty then 60 else 60 - (|s.pushed| - view)
  {
    hide Slot;
    if !s.ring.empty {
      if |s.pushed| == view { assert false; }
      Turn(view, |s.pushed|);
    }
  }

  /** The poller holds back only when its view leaves no room, or while the last
      indication is being taken off. */
  lemma AsksWhenRoom(states: seq<State>, steps: seq<Step>, i: nat)
    requires Run(states, steps) && i < |steps| && steps[i].Look?
    ensures var s, view := states[i], steps[i].view;
            && (states[i + 1].poller == Looked(view) || states[i + 1].poller == Sleeping)
            && (states[i + 1].poller == Sleeping <==>
                  !s.ring.empty && (|s.pushed| == view + 60 || (s.dispatcher == Advanced && |s.pushed| == view)))
  {
    hide Init, Stored, InOrder, Flagged, Budgeted, Slot;
    RunKeepsInv(states, steps, i);
    var s, view := states[i], steps[i].view;
    assert Next(s, steps[i], states[i + 1]);
    SameSlot(view, |s.pushed|);
  }

  lemma SameSlot(i: nat, j: nat)
    requires i <= j <= i + MAX_NUMBER_INDICATION_QUEUE
    ensures Slot(i) == Slot(j) <==> i == j || j == i + MAX_NUMBER_INDICATION_QUEUE
  {}

  /** The ring stands for the indications pushed and not yet taken off, except
      between the two stores of a take-off. */
  lemma RingIsQueue(states: seq<State>, steps: seq<Step>, i: nat)
    requires Run(states, steps) && i < |states| && states[i].dispatcher != Advanced
    ensures states[i].taken <= |states[i].pushed|
    ensures states[i].ring.Contents() == states[i].pushed[states[i].taken..]
  {
    RunKeepsInv(states, steps, i);
    var s := states[i];
    ContentsArePushed(s);
  }

  lemma ContentsArePushed(s: State)
    requires Inv(s) && s.dispatcher != Advanced
    ensures s.ring.Contents() == s.pushed[s.taken..]
  {
    hide Slot;
    var n := Live(s);
    if 0 < n < MAX_NUMBER_INDICATION_QUEUE { SlotsDiffer(s.taken, |s.pushed|); }
    if 0 < n { Turn(s.taken, |s.pushed|); }
    assert s.ring.Count() == n;
    forall k: nat | k < n
      ensures s.ring.Contents()[k] == s.pushed[s.taken + k]
    {
      SlotAdd(s.taken, k);
    }
  }

  /** Dispatched exactly once and in push order: what was dispatched is always
      the first part of what was pushed; and a slot handed to the dispatch
      function keeps its content for as long as it is used. */
  lemma DispatchedInPushOrder(states: seq<State>, steps: seq<Step>, i: nat)
    requires Run(states, steps) && i < |states|
    ensures states[i].dispatched <= states[i].pushed
    ensures states[i].taken <= |states[i].dispatched| <= states[i].taken + 1
    ensures states[i].dispatcher.UsesSlot() ==> states[i].ring.slots[states[i].ring.read] == states[i].held
  {
    RunKeepsInv(states, steps, i);
  }

  /** When the polling thread stops, all it queued has been dispatched and no
      packet is left half received. */
  lemma CleanStop(states: seq<State>, steps: seq<Step>, i: nat)
    requires Run(states, steps) && i < |states| && states[i].poller == Stopped
    ensures states[i].dispatched == states[i].pushed
    ensures states[i].ring.empty && states[i].partial == {}
  {
    RunKeepsInv(states, steps, i);
  }

  /** The unlocked question of the polling thread is never answered wrongly. */
  lemma EmptyFlagIsTrue(states: seq<State>, steps: seq<Step>, i: nat)
    requires Run(states, steps) && i < |states| && states[i].reassemblyEmpty
    ensures states[i].partial == {}
  {
    RunKeepsInv(states, steps, i);
  }
}
