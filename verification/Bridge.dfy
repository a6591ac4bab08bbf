/**
 The APDU bridge: worker threads that open an exchange and wait for its answer, and a
 host that supplies answers, over one locked map of senders and one channel of capacity
 one per exchange. Every lock release, send, receive and drop is a step of its own, and
 steps of all threads interleave freely.
 */
module Bridge {
  import opened Wrappers
  import opened ByteStrings

  /** What the host sends back: a response, or that the exchange failed. */
  type Answer = Option<Bytes>

  /** What `recv_timeout` gave a waiter. */
  datatype Received = Got(answer: Answer) | TimedOut | Disconnected

  /** Where the thread that owns an exchange is. */
  datatype Phase =
    | Opening                       // it drew its id and has not registered it yet
    | Waiting                       // registered, and possibly parked in `wait`
    | Resolved(received: Received)  // `recv_timeout` returned
    | Removed(received: Received)   // the id was removed from the map
    | Returned(received: Received)  // `wait` returned and the receiver is gone
    | Abandoned                     // dropped without `wait`; the receiver is gone

  /** Where a `supply` call is: it found no sender, or it took one and sent. */
  datatype Status = Called | Holding | NotFound | Sent(accepted: bool)

  datatype Call = Call(id: nat, answer: Answer, status: Status)

  datatype State = State(
    nextId: nat,
    pending: set<nat>,               // ids whose sender the map holds
    phases: map<nat, Phase>,
    slots: map<nat, Option<Answer>>, // the one slot of each channel
    calls: seq<Call>)

  const INITIAL := State(1, {}, map[], map[], [])

  datatype Step =
    | DrawId
    | Register(id: nat)
    | Receive(id: nat)
    | Timeout(id: nat)
    | Disconnect(id: nat)
    | Remove(id: nat)
    | Return(id: nat)
    | Abandon(id: nat)
    | BeginSupply(id: nat, answer: Answer)
    | TakeSender(call: nat)
    | Send(call: nat)

  predicate Known(s: State, id: nat) {
    id in s.phases && id in s.slots
  }

  predicate ReceiverAlive(phase: Phase) {
    !phase.Returned? && !phase.Abandoned?
  }

  /** Some thread, the map or a `supply` call still owns the sender. */
  predicate SenderAlive(s: State, id: nat) {
    || id in s.pending
    || (id in s.phases && s.phases[id].Opening?)
    || exists c :: 0 <= c < |s.calls| && s.calls[c].id == id && s.calls[c].status.Holding?
  }

  /** Whether a step can be taken; a `send` into a full slot would block. */
  predicate Enabled(s: State, step: Step) {
    match step
    case DrawId => true
    case Register(id) => Known(s, id) && s.phases[id].Opening?
    case Receive(id) => Known(s, id) && s.phases[id].Waiting? && s.slots[id].Some?
    case Timeout(id) => Known(s, id) && s.phases[id].Waiting? && s.slots[id].None?
    case Disconnect(id) => Known(s, id) && s.phases[id].Waiting? && s.slots[id].None? && !SenderAlive(s, id)
    case Remove(id) => Known(s, id) && s.phases[id].Resolved?
    case Return(id) => Known(s, id) && s.phases[id].Removed?
    case Abandon(id) => Known(s, id) && s.phases[id].Waiting?
    case BeginSupply(_, _) => true
    case TakeSender(c) => c < |s.calls| && s.calls[c].status.Called?
    case Send(c) =>
      c < |s.calls| && s.calls[c].status.Holding? && Known(s, s.calls[c].id)
      && (ReceiverAlive(s.phases[s.calls[c].id]) ==> s.slots[s.calls[c].id].None?)
  }

  function SetPhase(s: State, id: nat, phase: Phase): State {
    s.(phases := s.phases[id := phase])
  }

  function SetStatus(s: State, c: nat, status: Status): State
    requires c < |s.calls|
  {
    s.(calls := s.calls[c := s.calls[c].(status := status)])
  }

  function Apply(s: State, step: Step): State
    requires Enabled(s, step)
  {
    match step
    case DrawId =>
      s.(nextId := s.nextId + 1, phases := s.phases[s.nextId := Opening], slots := s.slots[s.nextId := None])
    case Register(id) => SetPhase(s, id, Waiting).(pending := s.pending + {id})
    case Receive(id) => SetPhase(s, id, Resolved(Got(s.slots[id].value))).(slots := s.slots[id := None])
    case Timeout(id) => SetPhase(s, id, Resolved(TimedOut))
    case Disconnect(id) => SetPhase(s, id, Resolved(Disconnected))
    case Remove(id) => SetPhase(s, id, Removed(s.phases[id].received)).(pending := s.pending - {id})
    case Return(id) => SetPhase(s, id, Returned(s.phases[id].received)).(slots := s.slots[id := None])
    case Abandon(id) => SetPhase(s, id, Abandoned).(slots := s.slots[id := None])
    case BeginSupply(id, answer) => s.(calls := s.calls + [Call(id, answer, Called)])
    case TakeSender(c) =>
      if s.calls[c].id in s.pending then SetStatus(s, c, Holding).(pending := s.pending - {s.calls[c].id})
      else SetStatus(s, c, NotFound)
    case Send(c) =>
      var id := s.calls[c].id;
      if ReceiverAlive(s.phases[id]) then SetStatus(s, c, Sent(true)).(slots := s.slots[id := Some(s.calls[c].answer)])
      else SetStatus(s, c, Sent(false))
  }

  /** The state after a run from `s`, if every step of it can be taken. */
  function Run(s: State, steps: seq<Step>): Option<State>
    decreases |steps|
  {
    if steps == [] then Some(s)
    else if !Enabled(s, steps[0]) then None
    else Run(Apply(s, steps[0]), steps[1..])
  }

  // -------------------------------------------------------------------- the invariant

  /** The call took the sender out of the map: it is about to send, or has. */
  predicate Took(call: Call) {
    call.status.Holding? || call.status.Sent?
  }

  predicate HasReceived(phase: Phase, answer: Answer) {
    (phase.Resolved? || phase.Removed? || phase.Returned?) && phase.received == Got(answer)
  }

  /** Call c took the sender of `id` out of the map. */
  predicate TakenBy(s: State, id: nat, c: nat) {
    c < |s.calls| && s.calls[c].id == id && Took(s.calls[c])
  }

  /** Call c put `answer` into the channel of `id`. */
  predicate Answered(s: State, id: nat, answer: Answer, c: nat) {
    c < |s.calls| && s.calls[c] == Call(id, answer, Sent(true))
  }

  /** What must hold of one exchange. */
  ghost predicate ExchangeInv(s: State, id: nat)
    requires Known(s, id)
  {
    var phase, slot := s.phases[id], s.slots[id];
    && (id in s.pending ==> phase.Waiting? || phase.Resolved? || phase.Abandoned?)
    && (id in s.pending || phase.Opening? ==> forall c :: !TakenBy(s, id, c))
    // a registered id leaves the map only by `supply`, until `wait` removes it
    && (id !in s.pending && (phase.Waiting? || phase.Resolved? || phase.Abandoned?) ==>
          exists c :: TakenBy(s, id, c))
    // what is in a slot, or came out of it, was put there by a call for this id
    && (slot.Some? ==> exists c :: Answered(s, id, slot.value, c))
    && (forall a :: HasReceived(phase, a) ==> slot.None? && exists c :: Answered(s, id, a, c))
    && (phase.Resolved? || phase.Removed? || phase.Returned? ==> !phase.received.Disconnected?)
    && (phase.Opening? || phase.Returned? || phase.Abandoned? ==> slot.None?)
  }

  /** Where the answer of an accepted call is: still in the slot, received, or dropped with the receiver. */
  ghost predicate Delivered(s: State, call: Call)
    requires Known(s, call.id)
  {
    var phase := s.phases[call.id];
    || s.slots[call.id] == Some(call.answer)
    || HasReceived(phase, call.answer)
    || phase == Returned(TimedOut)
    || phase.Abandoned?
  }

  /** What must hold of one supply call. */
  ghost predicate CallInv(s: State, c: nat)
    requires c < |s.calls|
  {
    var call := s.calls[c];
    && (Took(call) ==>
          && Known(s, call.id)
          && forall d :: TakenBy(s, call.id, d) ==> d == c)
    && (call.status.Holding? ==> s.slots[call.id].None? && forall a :: !HasReceived(s.phases[call.id], a))
    && (call.status == Sent(true) ==> Delivered(s, call))
    && (call.status == Sent(false) ==> !ReceiverAlive(s.phases[call.id]))
  }

  ghost predicate Inv(s: State) {
    && s.nextId >= 1
    && (forall id :: id in s.phases <==> 1 <= id < s.nextId)
    && (forall id :: id in s.slots <==> 1 <= id < s.nextId)
    && (forall id :: id in s.pending ==> id in s.phases)
    && (forall id :: id in s.phases ==> ExchangeInv(s, id))
    && (forall c :: 0 <= c < |s.calls| ==> CallInv(s, c))
  }

  lemma InitialInv()
    ensures Inv(INITIAL)
  {
  }

  /** A waiter's channel never disconnects: whoever takes the sender sends before dropping it. */
  lemma NeverDisconnects(s: State, id: nat)
    requires Inv(s)
    ensures !Enabled(s, Disconnect(id))
  {
    if Known(s, id) && s.phases[id].Waiting? && s.slots[id].None? && id !in s.pending {
      assert ExchangeInv(s, id);
      var c :| TakenBy(s, id, c);
      assert CallInv(s, c);
    }
  }

  /** The steps of the threads that own exchanges. */
  predicate OfExchange(step: Step) {
    !step.BeginSupply? && !step.TakeSender? && !step.Send?
  }

  lemma DeliveredStep(s: State, step: Step, c: nat)
    requires Inv(s) && Enabled(s, step) && OfExchange(step)
    requires c < |s.calls| && s.calls[c].status == Sent(true) && Known(s, s.calls[c].id)
    ensures Delivered(Apply(s, step), s.calls[c])
  {
    var phase := s.phases[s.calls[c].id];
    assert CallInv(s, c);
    assert ExchangeInv(s, s.calls[c].id);
    assert (phase.Resolved? || phase.Removed? || phase.Returned?) && phase.received.Got?
           ==> HasReceived(phase, phase.received.answer);
    if step.Disconnect? { NeverDisconnects(s, step.id); }
  }

  /** They touch no call … */
  lemma ExchangeStepFacts(s: State, step: Step)
    requires Inv(s) && Enabled(s, step) && OfExchange(step)
    ensures var t := Apply(s, step);
            && t.calls == s.calls
            && (forall id, c :: TakenBy(t, id, c) <==> TakenBy(s, id, c))
            && (forall id, a, c :: Answered(t, id, a, c) <==> Answered(s, id, a, c))
  {
  }

  /** … and a waiter only receives what is in its slot. */
  lemma ReceivedBefore(s: State, step: Step, id: nat, a: Answer)
    requires Inv(s) && Enabled(s, step) && OfExchange(step) && id in s.phases
    ensures HasReceived(Apply(s, step).phases[id], a) ==>
              HasReceived(s.phases[id], a) || (step == Receive(id) && s.slots[id] == Some(a))
  {
    if step.Disconnect? { NeverDisconnects(s, step.id); }
  }

  lemma ExchangeStepCalls(s: State, step: Step, c: nat)
    requires Inv(s) && Enabled(s, step) && OfExchange(step) && c < |s.calls|
    ensures CallInv(Apply(s, step), c)
  {
    var t, id := Apply(s, step), s.calls[c].id;
    ExchangeStepFacts(s, step);
    assert CallInv(s, c);
    if Took(s.calls[c]) { assert ExchangeInv(s, id); }
    if s.calls[c].status == Sent(true) { DeliveredStep(s, step, c); }
    if s.calls[c].status.Holding? {
      forall a ensures !HasReceived(t.phases[id], a) {
        ReceivedBefore(s, step, id, a);
        assert !HasReceived(s.phases[id], a);
      }
    }
  }

  lemma ExchangeStepExchanges(s: State, step: Step, id: nat)
    requires Inv(s) && Enabled(s, step) && OfExchange(step) && id in Apply(s, step).phases
    ensures Known(Apply(s, step), id) && ExchangeInv(Apply(s, step), id)
  {
    var t := Apply(s, step);
    ExchangeStepFacts(s, step);
    if step.Disconnect? { NeverDisconnects(s, step.id); }
    if id in s.phases {
      assert ExchangeInv(s, id);
      forall a | HasReceived(t.phases[id], a) ensures t.slots[id].None? && exists c :: Answered(t, id, a, c) {
        ReceivedBefore(s, step, id, a);
        if step == Receive(id) && s.slots[id] == Some(a) {
          var c :| Answered(s, id, a, c);
          assert Answered(t, id, a, c);
        } else {
          assert HasReceived(s.phases[id], a);
        }
      }
    } else {
      forall c ensures !TakenBy(s, id, c) {
        assert TakenBy(s, id, c) ==> CallInv(s, c);
      }
    }
  }

  lemma ExchangeStepInv(s: State, step: Step)
    requires Inv(s) && Enabled(s, step) && OfExchange(step)
    ensures Inv(Apply(s, step))
  {
    var t := Apply(s, step);
    ExchangeStepFacts(s, step);
    forall c | 0 <= c < |t.calls| ensures CallInv(t, c) { ExchangeStepCalls(s, step, c); }
    forall id | id in t.phases ensures ExchangeInv(t, id) { ExchangeStepExchanges(s, step, id); }
  }

  /** A registered id that `supply` has not taken has an empty channel. */
  lemma PendingIsUnanswered(s: State, id: nat)
    requires Inv(s) && id in s.pending
    ensures Known(s, id) && s.slots[id].None? && forall a :: !HasReceived(s.phases[id], a)
  {
    assert ExchangeInv(s, id);
    forall a, c ensures !Answered(s, id, a, c) {
      assert !TakenBy(s, id, c);
    }
  }

  lemma BeginSupplyInv(s: State, step: Step)
    requires Inv(s) && step.BeginSupply?
    ensures Inv(Apply(s, step))
  {
    var t := Apply(s, step);
    forall id, c ensures TakenBy(t, id, c) <==> TakenBy(s, id, c) {}
    forall c | 0 <= c < |t.calls| ensures CallInv(t, c) {
      if c < |s.calls| { assert CallInv(s, c); }
    }
    forall id | id in t.phases ensures ExchangeInv(t, id) {
      assert ExchangeInv(s, id);
      forall a, c | Answered(s, id, a, c) ensures Answered(t, id, a, c) {}
    }
  }

  lemma TakeSenderInv(s: State, c0: nat)
    requires Inv(s) && Enabled(s, TakeSender(c0))
    ensures Inv(Apply(s, TakeSender(c0)))
  {
    var t := Apply(s, TakeSender(c0));
    var id0 := s.calls[c0].id;
    if id0 in s.pending {
      assert ExchangeInv(s, id0);
      PendingIsUnanswered(s, id0);
    }
    forall id, c | TakenBy(s, id, c) ensures TakenBy(t, id, c) {}
    forall id, c | TakenBy(t, id, c) ensures TakenBy(s, id, c) || (c == c0 && id == id0 && id0 in s.pending) {}
    forall c | 0 <= c < |t.calls| ensures CallInv(t, c) {
      assert CallInv(s, c);
      if Took(s.calls[c]) { assert TakenBy(s, s.calls[c].id, c); }
    }
    forall id | id in t.phases ensures ExchangeInv(t, id) {
      assert ExchangeInv(s, id);
      forall a, c | Answered(s, id, a, c) ensures Answered(t, id, a, c) {}
      if id == id0 && id0 in s.pending { assert TakenBy(t, id, c0); }
    }
  }

  lemma SendInv(s: State, c0: nat)
    requires Inv(s) && Enabled(s, Send(c0))
    ensures Inv(Apply(s, Send(c0)))
  {
    var t := Apply(s, Send(c0));
    var id0 := s.calls[c0].id;
    assert CallInv(s, c0);
    assert ExchangeInv(s, id0);
    assert TakenBy(s, id0, c0);
    forall id, c | TakenBy(t, id, c) ensures TakenBy(s, id, c) {}
    forall c | 0 <= c < |t.calls| ensures CallInv(t, c) {
      assert CallInv(s, c);
    }
    forall id | id in t.phases ensures ExchangeInv(t, id) {
      assert ExchangeInv(s, id);
      forall a, c | Answered(s, id, a, c) ensures Answered(t, id, a, c) {}
      forall c | TakenBy(s, id, c) ensures TakenBy(t, id, c) {}
      if id == id0 && ReceiverAlive(s.phases[id0]) { assert Answered(t, id0, s.calls[c0].answer, c0); }
    }
  }

  lemma StepInv(s: State, step: Step)
    requires Inv(s) && Enabled(s, step)
    ensures Inv(Apply(s, step))
  {
    match step
    case BeginSupply(_, _) => BeginSupplyInv(s, step);
    case TakeSender(c) => TakeSenderInv(s, c);
    case Send(c) => SendInv(s, c);
    case _ => ExchangeStepInv(s, step);
  }

  /** The invariant holds in every state of every interleaving. */
  lemma {:induction false} RunInv(s: State, steps: seq<Step>)
    requires Inv(s) && Run(s, steps).Some?
    ensures Inv(Run(s, steps).value)
    decreases |steps|
  {
    if steps != [] {
      StepInv(s, steps[0]);
      RunInv(Apply(s, steps[0]), steps[1..]);
    }
  }

  // ------------------------------------------------- what every interleaving guarantees

  ghost predicate Reachable(s: State) {
    exists steps :: Run(INITIAL, steps) == Some(s)
  }

  lemma ReachableInv(s: State)
    requires Reachable(s)
    ensures Inv(s)
  {
    var steps :| Run(INITIAL, steps) == Some(s);
    InitialInv();
    RunInv(INITIAL, steps);
  }

  /** Each id gets at most one successful `supply`. */
  lemma AtMostOneSupply(s: State, c: nat, d: nat)
    requires Reachable(s) && c < |s.calls| && d < |s.calls|
    requires s.calls[c].status == Sent(true) && s.calls[d].status == Sent(true)
    requires s.calls[c].id == s.calls[d].id
    ensures c == d
  {
    ReachableInv(s);
    assert CallInv(s, c);
    assert TakenBy(s, s.calls[c].id, d);
  }

  /** `wait` returns only an answer that an accepted `supply` gave for its own id. */
  lemma WaitReturnsOwnAnswer(s: State, id: nat, answer: Answer)
    requires Reachable(s) && id in s.phases && s.phases[id] == Returned(Got(answer))
    ensures exists c :: Answered(s, id, answer, c)
  {
    ReachableInv(s);
    assert ExchangeInv(s, id);
    assert HasReceived(s.phases[id], answer);
  }

  /** `send` never blocks: a call that holds a sender can always complete. */
  lemma SendNeverBlocks(s: State, c: nat)
    requires Reachable(s) && c < |s.calls| && s.calls[c].status.Holding?
    ensures Enabled(s, Send(c))
  {
    ReachableInv(s);
    assert CallInv(s, c);
  }

  /** A waiter is never told that its channel disconnected. */
  lemma WaitNeverDisconnects(s: State, id: nat)
    requires Reachable(s)
    ensures !Enabled(s, Disconnect(id))
    ensures id in s.phases ==> s.phases[id] != Returned(Disconnected)
  {
    ReachableInv(s);
    NeverDisconnects(s, id);
    if id in s.phases { assert ExchangeInv(s, id); }
  }

  /**
   The map holds exactly the registered ids, dropped ones among them, that `wait` has
   not removed and whose sender no `supply` ever took.
   */
  lemma PendingExactly(s: State, id: nat)
    requires Reachable(s)
    ensures id in s.pending
            <==> && id in s.phases
                 && (s.phases[id].Waiting? || s.phases[id].Resolved? || s.phases[id].Abandoned?)
                 && (forall c :: !TakenBy(s, id, c))
  {
    ReachableInv(s);
    if id in s.phases { assert ExchangeInv(s, id); }
  }

  /**
   When every exchange opened has returned from `wait` or was dropped without it, what
   is left in the map is exactly the dropped ones whose sender no `supply` ever took.
   */
  lemma LeftoversExactly(s: State)
    requires Reachable(s) && forall id :: id in s.phases ==> !ReceiverAlive(s.phases[id])
    ensures s.pending
            == set id | id in s.phases && s.phases[id].Abandoned? && !exists c :: TakenBy(s, id, c)
  {
    forall id
      ensures id in s.pending <==> id in s.phases && s.phases[id].Abandoned? && !exists c :: TakenBy(s, id, c)
    {
      PendingExactly(s, id);
    }
  }

  /** When every exchange opened has returned from `wait`, nothing is pending. */
  lemma AllReturnedNothingPending(s: State)
    requires Reachable(s) && forall id :: id in s.phases ==> s.phases[id].Returned?
    ensures s.pending == {}
  {
    forall id ensures id !in s.pending { PendingExactly(s, id); }
  }

  /** Such a leftover never leaves the map of itself: it stays until some `supply` takes its sender. */
  lemma LeftoverStays(s: State, steps: seq<Step>, id: nat)
    requires Reachable(s) && id in s.phases && s.phases[id].Abandoned? && id in s.pending && Run(s, steps).Some?
    ensures var t := Run(s, steps).value;
            id in t.pending <==> forall c :: !TakenBy(t, id, c)
    ensures id in Run(s, steps).value.phases && Run(s, steps).value.phases[id].Abandoned?
  {
    ReachableInv(s);
    StaysAbandoned(s, steps, id);
    RunInv(s, steps);
    assert ExchangeInv(Run(s, steps).value, id);
  }

  lemma {:induction false} StaysAbandoned(s: State, steps: seq<Step>, id: nat)
    requires id in s.phases && s.phases[id].Abandoned? && Inv(s) && Run(s, steps).Some?
    ensures id in Run(s, steps).value.phases && Run(s, steps).value.phases[id].Abandoned?
    decreases |steps|
  {
    if steps != [] {
      StepInv(s, steps[0]);
      StaysAbandoned(Apply(s, steps[0]), steps[1..], id);
    }
  }

  /** The shortest run that leaves one behind. */
  lemma AbandonedCanStayPending()
    ensures Run(INITIAL, [DrawId, Register(1), Abandon(1)]).Some?
    ensures 1 in Run(INITIAL, [DrawId, Register(1), Abandon(1)]).value.pending
  {
    var s1 := Apply(INITIAL, DrawId);
    var s2 := Apply(s1, Register(1));
    var s3 := Apply(s2, Abandon(1));
    assert [DrawId, Register(1), Abandon(1)][1..] == [Register(1), Abandon(1)];
    assert [Register(1), Abandon(1)][1..] == [Abandon(1)];
    assert Run(s2, [Abandon(1)]) == Run(s3, []);
  }

  // --------------------------------------------------------------- after `wait` returns

  /** Once the receiver is gone it stays gone, with what it returned, and nothing more is accepted for it. */
  ghost predicate ClosedFor(s: State, t: State, id: nat)
    requires id in s.phases
  {
    && id in t.phases && t.phases[id] == s.phases[id]
    && |s.calls| <= |t.calls|
    && forall c :: 0 <= c < |t.calls| && t.calls[c].id == id && t.calls[c].status == Sent(true) ==>
         c < |s.calls| && s.calls[c] == t.calls[c]
  }

  lemma ClosedStep(s: State, step: Step, id: nat)
    requires Inv(s) && Enabled(s, step) && id in s.phases && !ReceiverAlive(s.phases[id])
    ensures ClosedFor(s, Apply(s, step), id)
  {
  }

  /**
   After `wait` returns, no later run lets a `supply` for that id succeed: the only
   successful one, if any, had succeeded before.
   */
  lemma {:induction false} LateSupplyIsRefused(s: State, steps: seq<Step>, id: nat)
    requires Inv(s) && id in s.phases && !ReceiverAlive(s.phases[id]) && Run(s, steps).Some?
    ensures ClosedFor(s, Run(s, steps).value, id)
    decreases |steps|
  {
    if steps != [] {
      var next := Apply(s, steps[0]);
      StepInv(s, steps[0]);
      ClosedStep(s, steps[0], id);
      LateSupplyIsRefused(next, steps[1..], id);
      var t := Run(s, steps).value;
      forall c | 0 <= c < |t.calls| && t.calls[c].id == id && t.calls[c].status == Sent(true)
        ensures c < |s.calls| && s.calls[c] == t.calls[c]
      {
        assert next.calls[c] == t.calls[c];
      }
    }
  }

  // ----------------------------------------------- what an accepted answer comes to

  /** How the thread that owns an exchange proceeds once an answer is in its slot. */
  ghost predicate AnswerKept(s: State, id: nat, answer: Answer)
    requires Known(s, id)
  {
    || (s.phases[id].Waiting? && s.slots[id] == Some(answer))
    || HasReceived(s.phases[id], answer)
    || s.phases[id].Abandoned?
  }

  ghost predicate AnswerLost(s: State, id: nat)
    requires Known(s, id)
  {
    (s.phases[id].Resolved? || s.phases[id].Removed? || s.phases[id].Returned?) && !s.phases[id].received.Got?
  }

  lemma {:induction false} KeptThrough(s: State, steps: seq<Step>, id: nat, answer: Answer)
    requires Inv(s) && Run(s, steps).Some? && Known(s, id) && AnswerKept(s, id, answer)
    ensures Known(Run(s, steps).value, id) && AnswerKept(Run(s, steps).value, id, answer)
    decreases |steps|
  {
    if steps != [] {
      StepInv(s, steps[0]);
      KeptStep(s, steps[0], id, answer);
      KeptThrough(Apply(s, steps[0]), steps[1..], id, answer);
    }
  }

  lemma KeptStep(s: State, step: Step, id: nat, answer: Answer)
    requires Inv(s) && Enabled(s, step) && Known(s, id) && AnswerKept(s, id, answer)
    ensures Known(Apply(s, step), id) && AnswerKept(Apply(s, step), id, answer)
  {
    assert ExchangeInv(s, id);
  }

  lemma {:induction false} LostThrough(s: State, steps: seq<Step>, id: nat)
    requires Inv(s) && Run(s, steps).Some? && Known(s, id) && AnswerLost(s, id)
    ensures Known(Run(s, steps).value, id) && AnswerLost(Run(s, steps).value, id)
    decreases |steps|
  {
    if steps != [] {
      StepInv(s, steps[0]);
      LostThrough(Apply(s, steps[0]), steps[1..], id);
    }
  }

  /**
   An accepted answer is what `wait` returns exactly when it was sent while the waiter
   had not yet given up: for every state a `send` succeeds in and every run from there
   to the return of `wait`.
   */
  lemma AcceptedAnswerReturned(s: State, c: nat, steps: seq<Step>)
    requires Reachable(s) && Enabled(s, Send(c)) && ReceiverAlive(s.phases[s.calls[c].id])
    requires Run(Apply(s, Send(c)), steps).Some?
    requires var t := Run(Apply(s, Send(c)), steps).value;
             s.calls[c].id in t.phases && t.phases[s.calls[c].id].Returned?
    ensures var (id, t) := (s.calls[c].id, Run(Apply(s, Send(c)), steps).value);
            t.phases[id].received == Got(s.calls[c].answer) <==> s.phases[id].Waiting?
  {
    ReachableInv(s);
    var id, next := s.calls[c].id, Apply(s, Send(c));
    StepInv(s, Send(c));
    assert CallInv(s, c);
    assert ExchangeInv(s, id);
    assert TakenBy(s, id, c);
    if s.phases[id].Waiting? {
      KeptThrough(next, steps, id, s.calls[c].answer);
    } else {
      var received := s.phases[id].received;
      assert received.Got? ==> HasReceived(s.phases[id], received.answer);
      LostThrough(next, steps, id);
    }
  }

  lemma RunStep(s: State, step: Step, rest: seq<Step>)
    requires Enabled(s, step)
    ensures Run(s, [step] + rest) == Run(Apply(s, step), rest)
  {
    assert ([step] + rest)[1..] == rest;
  }

  /**
   So `supply` can report success for an answer nobody receives: the waiter times out
   between the host's taking the sender and its sending.
   */
  lemma AcceptedButLost(answer: Answer)
    ensures Run(INITIAL, [DrawId] + ([Register(1)] + ([BeginSupply(1, answer)] + ([TakeSender(0)]
              + ([Timeout(1)] + ([Send(0)] + ([Remove(1)] + ([Return(1)] + []))))))))
            == Some(State(2, {}, map[1 := Returned(TimedOut)], map[1 := None], [Call(1, answer, Sent(true))]))
  {
    TakenThenTimedOut(answer, [Timeout(1)] + ([Send(0)] + ([Remove(1)] + ([Return(1)] + []))));
    SentTooLate(answer);
  }

  lemma TakenThenTimedOut(answer: Answer, rest: seq<Step>)
    ensures Run(INITIAL, [DrawId] + ([Register(1)] + ([BeginSupply(1, answer)] + ([TakeSender(0)] + rest))))
            == Run(State(2, {}, map[1 := Waiting], map[1 := None], [Call(1, answer, Holding)]), rest)
  {
    var s1 := State(2, {}, map[1 := Opening], map[1 := None], []);
    var s2 := State(2, {1}, map[1 := Waiting], map[1 := None], []);
    var s3 := s2.(calls := [Call(1, answer, Called)]);
    var s4 := State(2, {}, map[1 := Waiting], map[1 := None], [Call(1, answer, Holding)]);
    assert Apply(INITIAL, DrawId) == s1;
    assert Apply(s1, Register(1)) == s2;
    assert Apply(s2, BeginSupply(1, answer)) == s3;
    assert Apply(s3, TakeSender(0)) == s4 by { assert s3.pending - {1} == {}; }
    RunStep(s3, TakeSender(0), rest);
    RunStep(s2, BeginSupply(1, answer), [TakeSender(0)] + rest);
    RunStep(s1, Register(1), [BeginSupply(1, answer)] + ([TakeSender(0)] + rest));
    RunStep(INITIAL, DrawId, [Register(1)] + ([BeginSupply(1, answer)] + ([TakeSender(0)] + rest)));
  }

  lemma SentTooLate(answer: Answer)
    ensures Run(State(2, {}, map[1 := Waiting], map[1 := None], [Call(1, answer, Holding)]),
                [Timeout(1)] + ([Send(0)] + ([Remove(1)] + ([Return(1)] + []))))
            == Some(State(2, {}, map[1 := Returned(TimedOut)], map[1 := None], [Call(1, answer, Sent(true))]))
  {
    var s4 := State(2, {}, map[1 := Waiting], map[1 := None], [Call(1, answer, Holding)]);
    var s5 := s4.(phases := map[1 := Resolved(TimedOut)]);
    var s6 := s5.(slots := map[1 := Some(answer)], calls := [Call(1, answer, Sent(true))]);
    var s7 := s6.(phases := map[1 := Removed(TimedOut)]);
    var s8 := s7.(phases := map[1 := Returned(TimedOut)], slots := map[1 := None]);
    assert Apply(s4, Timeout(1)) == s5;
    assert Apply(s5, Send(0)) == s6;
    assert Apply(s6, Remove(1)) == s7 by { assert s6.pending - {1} == {}; }
    assert Apply(s7, Return(1)) == s8;
    RunStep(s7, Return(1), []);
    RunStep(s6, Remove(1), [Return(1)] + []);
    RunStep(s5, Send(0), [Remove(1)] + ([Return(1)] + []));
    RunStep(s4, Timeout(1), [Send(0)] + ([Remove(1)] + ([Return(1)] + [])));
  }
}
