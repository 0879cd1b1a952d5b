// Matching responses to requests (src/util/response_manager.rs).
//
// `Ledger` is the manager as a value and `LedgerStep` what one event does to it; the class is proved
// against them. The laws say what any log of events comes to, by looking at the log alone.
module ResponseManager {
  import opened Bytes

  /** What has become of the sending half of a one-shot channel. */
  datatype Outcome<T> =
    | Pending
    | Delivered(response: T)
    | Discarded(response: T)  // sent after the receiver was dropped
    | Superseded              // dropped unsent, because its id was registered again

  datatype Slot<T> = Slot(outcome: Outcome<T>, listening: bool)

  /** Waiters are numbered in the order of their registration. */
  datatype Event<I, T> =
    | Register(id: I)
    | Respond(id: I, response: T)
    | Abandon(waiter: nat)    // the waiter's receiver is dropped

  datatype Ledger<I, T> = Ledger(table: map<I, nat>, slots: seq<Slot<T>>)
  {
    ghost predicate Consistent() {
      && (forall id <- table :: table[id] < |slots| && slots[table[id]].outcome.Pending?)
      && (forall i, j :: i in table && j in table && table[i] == table[j] ==> i == j)
    }
  }

  function Empty<I, T>(): Ledger<I, T> {
    Ledger(map[], [])
  }

  function Resolve<T>(slots: seq<Slot<T>>, w: nat, outcome: Outcome<T>): seq<Slot<T>> {
    if w < |slots| then slots[w := slots[w].(outcome := outcome)] else slots
  }

  function Answer<T>(slots: seq<Slot<T>>, w: nat, response: T): Outcome<T> {
    if w < |slots| && !slots[w].listening then Discarded(response) else Delivered(response)
  }

  function LedgerStep<I, T>(v: Ledger<I, T>, e: Event<I, T>): Ledger<I, T> {
    match e
    case Register(id) =>
      var slots := if id in v.table then Resolve(v.slots, v.table[id], Superseded) else v.slots;
      Ledger(v.table[id := |v.slots|], slots + [Slot(Pending, true)])
    case Respond(id, response) =>
      if id in v.table then
        var w := v.table[id];
        Ledger(v.table - {id}, Resolve(v.slots, w, Answer(v.slots, w, response)))
      else v
    case Abandon(w) =>
      if w < |v.slots| then v.(slots := v.slots[w := v.slots[w].(listening := false)]) else v
  }

  function Replay<I, T>(log: seq<Event<I, T>>): Ledger<I, T> {
    if log == [] then Empty() else LedgerStep(Replay(log[..|log| - 1]), log[|log| - 1])
  }

  /** The table names distinct pending waiters, after every event. */
  lemma StepKeepsConsistent<I, T>(v: Ledger<I, T>, e: Event<I, T>)
    requires v.Consistent()
    ensures LedgerStep(v, e).Consistent()
  {
  }

  // ----- the program -----

  /** The state that the two halves of a one-shot channel share. */
  class Oneshot<T> {
    var slot: Slot<T>

    constructor ()
      ensures slot == Slot(Pending, true)
    {
      slot := Slot(Pending, true);
    }

    /** `Sender::send`; a response without listener comes back to the caller, who ignores it. */
    method Send(response: T)
      modifies this
      ensures slot == old(slot).(outcome := if old(slot).listening then Delivered(response) else Discarded(response))
    {
      slot := slot.(outcome := if slot.listening then Delivered(response) else Discarded(response));
    }

    /** Dropping a sender that has not sent. */
    method DropSender()
      modifies this
      ensures slot == old(slot).(outcome := Superseded)
    {
      slot := slot.(outcome := Superseded);
    }
  }

  class ResponseManager<I(==), T> {
    var pendingRequests: map<I, Oneshot<T>>
    ghost var channels: seq<Oneshot<T>>  // all that were ever made, in order
    ghost var table: map<I, nat>         // the number of each pending channel

    ghost predicate Valid()
      reads this, channels
    {
      && pendingRequests.Keys == table.Keys
      && (forall id <- table :: table[id] < |channels| && pendingRequests[id] == channels[table[id]])
      && (forall i, j :: 0 <= i < j < |channels| ==> channels[i] != channels[j])
    }

    ghost function View(): Ledger<I, T>
      reads this, channels
    {
      Ledger(table, seq(|channels|, i requires 0 <= i < |channels| reads this, channels => channels[i].slot))
    }

    /** `ResponseManager::new` */
    constructor ()
      ensures Valid() && View() == Empty() && channels == []
    {
      pendingRequests := map[];
      channels := [];
      table := map[];
    }

    /** `wait_for_response` */
    method WaitForResponse(id: I) returns (receiver: Oneshot<T>)
      requires Valid()
      modifies this, channels
      ensures Valid() && View() == LedgerStep(old(View()), Register(id))
      ensures channels == old(channels) + [receiver] && fresh(receiver)
    {
      ghost var before := View();
      receiver := new Oneshot();
      if id in pendingRequests {
        pendingRequests[id].DropSender();
      }
      pendingRequests := pendingRequests[id := receiver];
      table := table[id := |channels|];
      channels := channels + [receiver];
      assert View().slots == LedgerStep(before, Register(id)).slots;
    }

    /** `handle_response` */
    method HandleResponse(id: I, response: T)
      requires Valid()
      modifies this, channels
      ensures Valid() && View() == LedgerStep(old(View()), Respond(id, response))
      ensures channels == old(channels)
    {
      ghost var before := View();
      if id in pendingRequests {
        var sender := pendingRequests[id];
        pendingRequests := pendingRequests - {id};
        table := table - {id};
        sender.Send(response);
      }
      assert View().slots == LedgerStep(before, Respond(id, response)).slots;
    }

    /** What dropping the receiver of waiter `w` does. */
    method DropReceiver(receiver: Oneshot<T>, ghost w: nat)
      requires Valid() && w < |channels| && channels[w] == receiver
      modifies receiver
      ensures Valid() && View() == LedgerStep(old(View()), Abandon(w))
    {
      receiver.slot := receiver.slot.(listening := false);
      assert View().slots == LedgerStep(old(View()), Abandon(w)).slots;
    }
  }

  // ----- what a log comes to -----

  predicate Concerns<I(==), T>(e: Event<I, T>, id: I) {
    !e.Abandon? && e.id == id
  }

  /** The position of the first event on `id` at or after `from`. */
  function FirstOn<I(==), T>(log: seq<Event<I, T>>, id: I, from: nat): (q: Option<nat>)
    decreases |log| - from
    ensures q.Some? ==> from <= q.value < |log| && Concerns(log[q.value], id)
  {
    if from >= |log| then None
    else if Concerns(log[from], id) then Some(from)
    else FirstOn(log, id, from + 1)
  }

  function Registrations<I, T>(log: seq<Event<I, T>>): nat {
    if log == [] then 0
    else Registrations(log[..|log| - 1]) + if log[|log| - 1].Register? then 1 else 0
  }

  /** The number of the waiter that the registration at position `p` makes. */
  function WaiterAt<I, T>(log: seq<Event<I, T>>, p: nat): nat
    requires p < |log|
  {
    Registrations(log[..p])
  }

  ghost predicate AbandonedWithin<I, T>(log: seq<Event<I, T>>, w: nat, lo: nat, hi: nat) {
    exists j :: lo <= j < hi <= |log| && log[j] == Abandon(w)
  }

  /** What becomes of the waiter registered at position `p`: the first later event on its id decides. */
  ghost function Fate<I, T>(log: seq<Event<I, T>>, p: nat): Outcome<T>
    requires p < |log| && log[p].Register?
  {
    match FirstOn(log, log[p].id, p + 1)
    case None => Pending
    case Some(q) =>
      if log[q].Register? then Superseded
      else if AbandonedWithin(log, WaiterAt(log, p), p + 1, q) then Discarded(log[q].response)
      else Delivered(log[q].response)
  }

  lemma {:induction false} FirstOnAppend<I, T>(log: seq<Event<I, T>>, e: Event<I, T>, id: I, from: nat)
    requires from <= |log|
    decreases |log| - from
    ensures FirstOn(log + [e], id, from)
         == if FirstOn(log, id, from).Some? then FirstOn(log, id, from)
            else if Concerns(e, id) then Some(|log|) else None
  {
    if from < |log| && !Concerns(log[from], id) {
      FirstOnAppend(log, e, id, from + 1);
    }
  }

  lemma AbandonedAppend<I, T>(log: seq<Event<I, T>>, e: Event<I, T>, w: nat, lo: nat, hi: nat)
    requires hi <= |log|
    ensures AbandonedWithin(log + [e], w, lo, hi) <==> AbandonedWithin(log, w, lo, hi)
    ensures lo <= |log| ==>
      (AbandonedWithin(log + [e], w, lo, |log| + 1) <==> AbandonedWithin(log, w, lo, |log|) || e == Abandon(w))
  {
    var ext := log + [e];
    if j :| lo <= j < hi && log[j] == Abandon(w) {
      assert ext[j] == Abandon(w);
    }
    if j :| lo <= j < |log| && log[j] == Abandon(w) {
      assert ext[j] == Abandon(w);
    }
    if lo <= |log| && e == Abandon(w) {
      assert ext[|log|] == Abandon(w);
    }
  }

  /** One more event leaves a decided fate alone, and decides a pending one exactly if it is on its id. */
  lemma FateAppend<I, T>(log: seq<Event<I, T>>, e: Event<I, T>, p: nat)
    requires p < |log| && log[p].Register?
    ensures WaiterAt(log + [e], p) == WaiterAt(log, p)
    ensures var id, w := log[p].id, WaiterAt(log, p);
      Fate(log + [e], p) ==
        if !Fate(log, p).Pending? || !Concerns(e, id) then Fate(log, p)
        else if e.Register? then Superseded
        else if AbandonedWithin(log, w, p + 1, |log|) then Discarded(e.response)
        else Delivered(e.response)
  {
    var id, w := log[p].id, WaiterAt(log, p);
    assert (log + [e])[..p] == log[..p];
    FirstOnAppend(log, e, id, p + 1);
    match FirstOn(log, id, p + 1) {
      case Some(q) => AbandonedAppend(log, e, w, p + 1, q);
      case None => AbandonedAppend(log, e, w, p + 1, |log|);
    }
  }

  ghost predicate Agrees<I, T>(log: seq<Event<I, T>>, v: Ledger<I, T>, p: nat)
    requires p < |log|
  {
    log[p].Register? ==>
      var w := WaiterAt(log, p);
      && w < |v.slots|
      && v.slots[w].outcome == Fate(log, p)
      && (v.slots[w].listening <==> !AbandonedWithin(log, w, p + 1, |log|))
      && (Fate(log, p).Pending? ==> log[p].id in v.table && v.table[log[p].id] == w)
  }

  /** The manager's state after any log is what a scan of the log says: each waiter's outcome is
      decided by the first later event on its id, and the table holds the pending ones. */
  lemma {:induction false} ReplayIsScan<I, T>(log: seq<Event<I, T>>)
    ensures Replay(log).Consistent() && |Replay(log).slots| == Registrations(log)
    ensures forall p :: 0 <= p < |log| ==> Agrees(log, Replay(log), p)
  {
    if log != [] {
      var init, e := log[..|log| - 1], log[|log| - 1];
      assert log == init + [e];
      ReplayIsScan(init);
      StepKeepsConsistent(Replay(init), e);
      forall p | 0 <= p < |log|
        ensures Agrees(log, Replay(log), p)
      {
        if p < |init| {
          AgreesAppend(init, e, Replay(init), p);
        } else if e.Register? {
          assert WaiterAt(log, p) == Registrations(init);
        }
      }
    }
  }

  lemma AgreesAppend<I, T>(log: seq<Event<I, T>>, e: Event<I, T>, v: Ledger<I, T>, p: nat)
    requires p < |log| && Agrees(log, v, p) && v.Consistent()
    ensures Agrees(log + [e], LedgerStep(v, e), p)
  {
    if log[p].Register? {
      hide Fate, WaiterAt, AbandonedWithin;
      FateAppend(log, e, p);
      AbandonedAppend(log, e, WaiterAt(log, p), p + 1, |log|);
    }
  }

  /** Conversely, whoever is in the table is the newest registration of its id, and pending. */
  lemma {:induction false} TableIsPending<I, T>(log: seq<Event<I, T>>, id: I) returns (p: nat)
    requires id in Replay(log).table
    ensures p < |log| && log[p] == Register(id) && Fate(log, p).Pending?
    ensures Replay(log).table[id] == WaiterAt(log, p)
    ensures forall q :: p < q < |log| ==> log[q] != Register(id)
  {
    var init, e := log[..|log| - 1], log[|log| - 1];
    assert log == init + [e];
    if e == Register(id) {
      p := |init|;
      ReplayIsScan(init);
    } else {
      p := TableIsPending(init, id);
      FateAppend(init, e, p);
      ReplayIsScan(init);
    }
  }

  // ----- conservation -----

  datatype Tally = Tally(pending: nat, answered: nat, superseded: nat)

  function Count<T>(slots: seq<Slot<T>>): Tally {
    if slots == [] then Tally(0, 0, 0) else Add(Count(slots[..|slots| - 1]), slots[|slots| - 1].outcome)
  }

  function Add<T>(t: Tally, outcome: Outcome<T>): Tally {
    match outcome
    case Pending => t.(pending := t.pending + 1)
    case Superseded => t.(superseded := t.superseded + 1)
    case _ => t.(answered := t.answered + 1)
  }

  lemma {:induction false} CountUpdate<T>(slots: seq<Slot<T>>, w: nat, s: Slot<T>)
    requires w < |slots|
    ensures Add(Count(slots[w := s]), slots[w].outcome) == Add(Count(slots), s.outcome)
  {
    var n := |slots| - 1;
    if w < n {
      assert slots[w := s][..n] == slots[..n][w := s];
      CountUpdate(slots[..n], w, s);
    } else {
      assert slots[w := s][..n] == slots[..n];
    }
  }

  lemma CountAppend<T>(slots: seq<Slot<T>>, s: Slot<T>)
    ensures Count(slots + [s]) == Add(Count(slots), s.outcome)
  {
    assert (slots + [s])[..|slots|] == slots;
  }

  /** No waiter is lost or counted twice: those registered are those in the table, those answered and
      those superseded. */
  lemma {:induction false} Conservation<I, T>(log: seq<Event<I, T>>)
    ensures var v := Replay(log);
            && Count(v.slots).pending == |v.table|
            && Registrations(log) == |v.table| + Count(v.slots).answered + Count(v.slots).superseded
  {
    if log != [] {
      var init, e := log[..|log| - 1], log[|log| - 1];
      Conservation(init);
      ReplayIsScan(init);
      StepConserves(Replay(init), e);
      ReplayIsScan(log);
    }
  }

  predicate Balanced<T>(slots: seq<Slot<T>>, pending: nat) {
    Count(slots).pending == pending && |slots| == pending + Count(slots).answered + Count(slots).superseded
  }

  lemma ResolveBalanced<T>(slots: seq<Slot<T>>, pending: nat, w: nat, outcome: Outcome<T>)
    requires Balanced(slots, pending) && w < |slots| && slots[w].outcome.Pending? && !outcome.Pending?
    ensures pending > 0 && Balanced(Resolve(slots, w, outcome), pending - 1)
  {
    CountUpdate(slots, w, slots[w].(outcome := outcome));
  }

  lemma AppendBalanced<T>(slots: seq<Slot<T>>, pending: nat)
    requires Balanced(slots, pending)
    ensures Balanced(slots + [Slot(Pending, true)], pending + 1)
  {
    CountAppend(slots, Slot(Pending, true));
  }

  lemma RegisterConserves<I, T>(v: Ledger<I, T>, id: I)
    requires v.Consistent() && Balanced(v.slots, |v.table|)
    ensures Balanced(LedgerStep(v, Register(id)).slots, |LedgerStep(v, Register(id)).table|)
  {
    hide Balanced;
    TableSizes(v.table, id, |v.slots|);
    if id in v.table {
      ResolveBalanced(v.slots, |v.table|, v.table[id], Superseded);
      AppendBalanced(Resolve(v.slots, v.table[id], Superseded), |v.table| - 1);
    } else {
      AppendBalanced(v.slots, |v.table|);
    }
  }

  lemma RespondConserves<I, T>(v: Ledger<I, T>, id: I, response: T)
    requires v.Consistent() && Balanced(v.slots, |v.table|)
    ensures Balanced(LedgerStep(v, Respond(id, response)).slots, |LedgerStep(v, Respond(id, response)).table|)
  {
    hide Balanced;
    TableSizes(v.table, id, 0);
    if id in v.table {
      ResolveBalanced(v.slots, |v.table|, v.table[id], Answer(v.slots, v.table[id], response));
    }
  }

  lemma StepConserves<I, T>(v: Ledger<I, T>, e: Event<I, T>)
    requires v.Consistent() && Balanced(v.slots, |v.table|)
    ensures Balanced(LedgerStep(v, e).slots, |LedgerStep(v, e).table|)
  {
    match e {
      case Register(id) => RegisterConserves(v, id);
      case Respond(id, response) => RespondConserves(v, id, response);
      case Abandon(w) => AbandonBalanced(v.slots, |v.table|, w);
    }
  }

  lemma AbandonBalanced<T>(slots: seq<Slot<T>>, pending: nat, w: nat)
    requires Balanced(slots, pending)
    ensures w < |slots| ==> Balanced(slots[w := slots[w].(listening := false)], pending)
  {
    if w < |slots| {
      CountUpdate(slots, w, slots[w].(listening := false));
    }
  }

  lemma TableSizes<I>(table: map<I, nat>, id: I, n: nat)
    ensures |table[id := n]| == if id in table then |table| else |table| + 1
    ensures |table - {id}| == if id in table then |table| - 1 else |table|
  {
    assert table[id := n].Keys == table.Keys + {id};
    assert (table - {id}).Keys == table.Keys - {id};
  }
}
