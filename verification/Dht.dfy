// Publishing and looking up a ticket (src/dht.rs): any number of publishers of one name put their
// records on the nodes of the DHT, and republish them unchanged until they notice that they are cancelled. A node keeps
// the record with the highest sequence number (the rule for mutable items of BEP 44).
module Dht {
  import opened Bytes

  /** A signed packet; the timestamp of the signature is its sequence number. */
  datatype Record = Record(timestamp: nat, ticket: string)

  datatype Phase = NotPublished | Republishing | Stopped

  /** `cancelled` is the state of its token, which only the republishing loop watches. */
  datatype Publisher = Publisher(record: Record, phase: Phase, cancelled: bool)

  datatype System = System(publishers: seq<Publisher>, nodes: map<nat, Record>)

  /** `reached` are the nodes that a `publish` gets to, whether or not it succeeds as a whole. */
  datatype Action =
    | FirstPublish(p: nat, reached: set<nat>, ok: bool)
    | Republish(p: nat, reached: set<nat>)
    | Cancel(p: nat)
    | NoticeCancel(p: nat)

  predicate Accepts(nodes: map<nat, Record>, n: nat, r: Record) {
    n !in nodes || nodes[n].timestamp <= r.timestamp
  }

  function Put(nodes: map<nat, Record>, reached: set<nat>, r: Record): (after: map<nat, Record>)
    ensures after.Keys == nodes.Keys + reached
  {
    map n | n in nodes.Keys + reached :: if n in reached && Accepts(nodes, n, r) then r else nodes[n]
  }

  function Step(s: System, a: Action): System {
    if a.p >= |s.publishers| then s
    else
      var q := s.publishers[a.p];
      match a
      case FirstPublish(p, reached, ok) =>
        if q.phase != NotPublished then s
        else System(s.publishers[p := q.(phase := if ok then Republishing else Stopped)], Put(s.nodes, reached, q.record))
      case Republish(p, reached) =>
        if q.phase != Republishing then s else s.(nodes := Put(s.nodes, reached, q.record))
      case Cancel(p) => s.(publishers := s.publishers[p := q.(cancelled := true)])
      case NoticeCancel(p) =>
        if q.phase == Republishing && q.cancelled then s.(publishers := s.publishers[p := q.(phase := Stopped)]) else s
  }

  function Run(s: System, actions: seq<Action>): System
    decreases |actions|
  {
    if actions == [] then s else Run(Step(s, actions[0]), actions[1..])
  }

  /** The publishers before they start; their packets are signed at different times. */
  predicate Start(s: System) {
    && s.nodes == map[]
    && (forall p <- s.publishers :: p.phase == NotPublished && !p.cancelled)
    && Distinct(s.publishers)
  }

  // ----- lookup -----

  datatype RData = Txt(decoded: Option<string>) | OtherData

  /** The first text among `records` that decodes. */
  function FirstTicket(records: seq<RData>): Option<string> {
    if records == [] then None
    else if records[0].Txt? && records[0].decoded.Some? then records[0].decoded
    else FirstTicket(records[1..])
  }

  /** The record at `i` is a text that decodes to `t`, and no record before it decodes. */
  predicate FirstAt(records: seq<RData>, i: nat, t: string) {
    && i < |records| && records[i] == Txt(Some(t))
    && forall j :: 0 <= j < i ==> records[j].OtherData? || records[j].decoded.None?
  }

  /** The ticket that is found is the first text that decodes, whatever stands between. */
  lemma {:induction false} FirstTicketIs(records: seq<RData>, t: string)
    ensures FirstTicket(records) == Some(t) <==> exists i: nat :: FirstAt(records, i, t)
  {
    if records != [] {
      var rest := records[1..];
      FirstTicketIs(rest, t);
      if FirstTicket(records) == Some(t) {
        if records[0].Txt? && records[0].decoded.Some? {
          assert FirstAt(records, 0, t);
        } else {
          var i: nat :| FirstAt(rest, i, t);
          assert forall j :: 0 < j <= i ==> records[j] == rest[j - 1];
          assert FirstAt(records, i + 1, t);
        }
      }
      if i: nat :| FirstAt(records, i, t) && i > 0 {
        assert forall j :: 0 <= j < i - 1 ==> rest[j] == records[j + 1];
        assert FirstAt(rest, i - 1, t);
      }
    }
  }

  /** `lookup_iroh_mapping`, on what `resolve_most_recent` found */
  method LookupIrohMapping(packet: Option<seq<RData>>) returns (ticket: Option<string>)
    ensures ticket == match packet case None => None case Some(records) => FirstTicket(records)
  {
    if packet.Some? {
      var records := packet.value;
      for i := 0 to |records|
        invariant FirstTicket(records[i..]) == FirstTicket(records)
      {
        assert records[i..][1..] == records[i + 1..];
        match records[i] {
          case Txt(Some(t)) => return Some(t);
          case _ =>
        }
      }
    }
    ticket := None;
  }

  /** The records that the reached nodes hold. */
  function Found(s: System, reached: set<nat>): set<Record> {
    set n | n in reached && n in s.nodes :: s.nodes[n]
  }

  /** What `resolve_most_recent` may return from the reached nodes. */
  predicate MostRecent(r: Record, found: set<Record>) {
    r in found && forall o <- found :: o.timestamp <= r.timestamp
  }

  // ----- what never happens -----

  /** Some publisher signed the record. */
  predicate Signed(publishers: seq<Publisher>, r: Record) {
    exists p :: 0 <= p < |publishers| && publishers[p].record == r
  }

  predicate Distinct(publishers: seq<Publisher>) {
    forall i, j :: 0 <= i < j < |publishers| ==> publishers[i].record.timestamp != publishers[j].record.timestamp
  }

  predicate Authentic(s: System) {
    (forall n <- s.nodes :: Signed(s.publishers, s.nodes[n])) && Distinct(s.publishers)
  }

  /** The publishers are the same but for their phase. */
  predicate SameRecords(a: seq<Publisher>, b: seq<Publisher>) {
    |a| == |b| && forall p :: 0 <= p < |a| ==> a[p].record == b[p].record
  }

  lemma SignedBySame(a: seq<Publisher>, b: seq<Publisher>, r: Record)
    requires SameRecords(a, b) && Signed(a, r)
    ensures Signed(b, r)
  {
    var p :| 0 <= p < |a| && a[p].record == r;
    assert b[p].record == r;
  }

  lemma StepIsMonotone(s: System, a: Action)
    requires Authentic(s)
    ensures var t := Step(s, a);
      && Authentic(t) && SameRecords(s.publishers, t.publishers)
      && (forall n <- s.nodes :: n in t.nodes && s.nodes[n].timestamp <= t.nodes[n].timestamp)
  {
    hide Signed;
    var t := Step(s, a);
    assert SameRecords(s.publishers, t.publishers);
    forall n | n in t.nodes
      ensures Signed(t.publishers, t.nodes[n])
    {
      if n in s.nodes && t.nodes[n] == s.nodes[n] {
        SignedBySame(s.publishers, t.publishers, s.nodes[n]);
      } else {
        OwnIsSigned(t.publishers, a.p);
      }
    }
  }

  lemma OwnIsSigned(publishers: seq<Publisher>, p: nat)
    requires p < |publishers|
    ensures Signed(publishers, publishers[p].record)
  {
  }

  /** Over any interleaving of publishers, republishing and cancellation, no node's sequence number
      decreases, and every node holds what some publisher signed. */
  lemma {:induction false} NodesNeverRegress(s: System, actions: seq<Action>)
    requires Authentic(s)
    decreases |actions|
    ensures var t := Run(s, actions);
      && Authentic(t) && SameRecords(s.publishers, t.publishers)
      && (forall n <- s.nodes :: n in t.nodes && s.nodes[n].timestamp <= t.nodes[n].timestamp)
  {
    hide Step, Signed, Distinct;
    if actions != [] {
      StepIsMonotone(s, actions[0]);
      NodesNeverRegress(Step(s, actions[0]), actions[1..]);
    }
  }

  /** Once a publisher's record is on a node, every later lookup that reaches the node finds this record,
      or one that was signed later by another publisher; in particular the latest publisher's ticket,
      once stored, is what such lookups return, whoever republishes. */
  lemma LookupFindsLatest(start: System, before: seq<Action>, later: seq<Action>, p: nat, n: nat, reached: set<nat>, r: Record)
    requires Start(start) && p < |start.publishers| && n in reached
    requires var s := Run(start, before); n in s.nodes && s.nodes[n] == start.publishers[p].record
    requires MostRecent(r, Found(Run(Run(start, before), later), reached))
    ensures r.timestamp >= start.publishers[p].record.timestamp
    ensures Signed(start.publishers, r)
    ensures (forall q :: 0 <= q < |start.publishers| ==>
               start.publishers[q].record.timestamp <= start.publishers[p].record.timestamp)
      ==> r == start.publishers[p].record
  {
    hide Run, Signed, Distinct, Found;
    NodesNeverRegress(start, before);
    var s := Run(start, before);
    NodesNeverRegress(s, later);
    var t := Run(s, later);
    FoundIsHeld(t, reached, n, r);
    SignedBySame(t.publishers, start.publishers, r);
    LatestIsUnique(start.publishers, p, r);
  }

  lemma FoundIsHeld(t: System, reached: set<nat>, n: nat, r: Record)
    requires Authentic(t) && n in reached && n in t.nodes && MostRecent(r, Found(t, reached))
    ensures t.nodes[n].timestamp <= r.timestamp && Signed(t.publishers, r)
  {
    hide Signed;
    assert t.nodes[n] in Found(t, reached);
    var m :| m in reached && m in t.nodes && t.nodes[m] == r;
  }

  /** No other record is as late as the latest. */
  lemma LatestIsUnique(publishers: seq<Publisher>, p: nat, r: Record)
    requires p < |publishers| && Distinct(publishers) && Signed(publishers, r)
    requires r.timestamp >= publishers[p].record.timestamp
    ensures (forall q :: 0 <= q < |publishers| ==> publishers[q].record.timestamp <= publishers[p].record.timestamp)
      ==> r == publishers[p].record
  {
    var q :| 0 <= q < |publishers| && publishers[q].record == r;
  }

  // ----- what a node holds, from the log alone -----

  /** The publisher has made its first publication, or tried to. */
  predicate Tried(log: seq<Action>, p: nat) {
    exists k :: 0 <= k < |log| && log[k].FirstPublish? && log[k].p == p
  }

  /** The publisher's first publication succeeded, and its loop has not noticed a cancellation since. */
  predicate Going(log: seq<Action>, p: nat) {
    log != []
    && var init, a := log[..|log| - 1], log[|log| - 1];
       if a.FirstPublish? && a.p == p && !Tried(init, p) then a.ok
       else Going(init, p) && !(a == NoticeCancel(p) && Cancel(p) in init)
  }

  /** The action puts the record of its publisher on node `n`. */
  predicate Stores(publishers: seq<Publisher>, before: seq<Action>, a: Action, n: nat) {
    && a.p < |publishers|
    && ((a.FirstPublish? && n in a.reached && !Tried(before, a.p)) || (a.Republish? && n in a.reached && Going(before, a.p)))
  }

  predicate StoresAt(publishers: seq<Publisher>, log: seq<Action>, k: nat, n: nat) {
    k < |log| && Stores(publishers, log[..k], log[k], n)
  }

  lemma {:induction false} RunAppend(s: System, actions: seq<Action>, a: Action)
    decreases |actions|
    ensures Run(s, actions + [a]) == Step(Run(s, actions), a)
  {
    hide Step;
    if actions == [] {
      assert [a][1..] == [] && [] + [a] == [a];
      assert Run(s, [a]) == Run(Step(s, a), []);
    } else {
      assert (actions + [a])[1..] == actions[1..] + [a];
      RunAppend(Step(s, actions[0]), actions[1..], a);
    }
  }

  lemma TriedAppend(log: seq<Action>, a: Action, p: nat)
    ensures Tried(log + [a], p) <==> Tried(log, p) || (a.FirstPublish? && a.p == p)
  {
    if Tried(log, p) {
      var k :| 0 <= k < |log| && log[k].FirstPublish? && log[k].p == p;
      assert (log + [a])[k] == log[k];
    }
    if a.FirstPublish? && a.p == p {
      assert (log + [a])[|log|] == a;
    }
  }

  /** The state of a publisher is what the log says. */
  predicate PublisherIs(q: Publisher, log: seq<Action>, p: nat) {
    && (q.phase == NotPublished <==> !Tried(log, p))
    && (q.phase == Republishing <==> Going(log, p))
    && (q.cancelled <==> Cancel(p) in log)
  }

  lemma PublisherStep(s: System, log: seq<Action>, a: Action, p: nat)
    requires p < |s.publishers| && PublisherIs(s.publishers[p], log, p)
    ensures p < |Step(s, a).publishers| && PublisherIs(Step(s, a).publishers[p], log + [a], p)
  {
    TriedAppend(log, a, p);
    assert (log + [a])[..|log|] == log;
    hide Tried, Put;
  }

  lemma {:induction false} LogTellsPublishers(start: System, log: seq<Action>, p: nat)
    requires Start(start) && p < |start.publishers|
    decreases |log|
    ensures p < |Run(start, log).publishers| && PublisherIs(Run(start, log).publishers[p], log, p)
  {
    hide Step;
    if log == [] {
      assert start.publishers[p] in start.publishers;
    } else {
      var init, a := log[..|log| - 1], log[|log| - 1];
      assert log == init + [a];
      RunAppend(start, init, a);
      LogTellsPublishers(start, init, p);
      PublisherStep(Run(start, init), init, a, p);
    }
  }

  /** What one action does to a node: it gets the publisher's record if the action stores it there, unless
      it holds a later one. */
  lemma NodeStep(start: System, init: seq<Action>, a: Action, n: nat)
    requires Start(start)
    ensures var s, t := Run(start, init), Run(start, init + [a]);
      if Stores(start.publishers, init, a, n) then
        var r := start.publishers[a.p].record;
        n in t.nodes && t.nodes[n] == if n in s.nodes && s.nodes[n].timestamp > r.timestamp then s.nodes[n] else r
      else (n in t.nodes <==> n in s.nodes) && (n in s.nodes ==> t.nodes[n] == s.nodes[n])
  {
    RunAppend(start, init, a);
    NodesNeverRegress(start, init);
    var s := Run(start, init);
    if a.p < |start.publishers| {
      LogTellsPublishers(start, init, a.p);
    }
    hide Run, Tried, Going, Signed, Distinct;
  }

  /** In every run, with `a` as its last action: which actions of it store something on the node. */
  lemma StoresAppend(publishers: seq<Publisher>, init: seq<Action>, a: Action, k: nat, n: nat)
    ensures StoresAt(publishers, init + [a], k, n)
       <==> StoresAt(publishers, init, k, n) || (k == |init| && Stores(publishers, init, a, n))
  {
    if k < |init| {
      assert (init + [a])[..k] == init[..k];
    } else if k == |init| {
      assert (init + [a])[..k] == init;
    }
  }

  /** The record that the action at position `k` puts somewhere. */
  function RecordAt(publishers: seq<Publisher>, log: seq<Action>, k: nat): Record
    requires k < |log| && log[k].p < |publishers|
  {
    publishers[log[k].p].record
  }

  /** In every run a node holds a record exactly if some publication reached it, and then it is the latest
      that did: one of those stored there, and none of those is later. A first publication counts once per
      publisher, whether or not it succeeds as a whole; a republication counts from a first one that
      succeeded until the loop notices that it was cancelled. */
  lemma {:induction false} NodeHoldsLatest(start: System, log: seq<Action>, n: nat)
    requires Start(start)
    decreases |log|
    ensures var s, ps := Run(start, log), start.publishers;
      && (n in s.nodes <==> exists k: nat :: StoresAt(ps, log, k, n))
      && (n in s.nodes ==> exists k: nat :: StoresAt(ps, log, k, n) && RecordAt(ps, log, k) == s.nodes[n])
      && (forall k: nat :: StoresAt(ps, log, k, n) ==> RecordAt(ps, log, k).timestamp <= s.nodes[n].timestamp)
  {
    if log != [] {
      var ps, last := start.publishers, |log| - 1;
      var init, a := log[..last], log[last];
      assert log == init + [a];
      var s, t := Run(start, init), Run(start, log);
      NodeHoldsLatest(start, init, n);
      NodeStep(start, init, a, n);
      hide Run, Stores;
      forall k: nat
        ensures StoresAt(ps, log, k, n) <==> StoresAt(ps, init, k, n) || (k == last && Stores(ps, init, a, n))
      {
        StoresAppend(ps, init, a, k, n);
      }
      if n in s.nodes {
        var k: nat :| StoresAt(ps, init, k, n) && RecordAt(ps, init, k) == s.nodes[n];
        assert StoresAt(ps, log, k, n) && RecordAt(ps, log, k) == s.nodes[n];
      }
      if Stores(ps, init, a, n) {
        assert StoresAt(ps, log, last, n) && RecordAt(ps, log, last) == ps[a.p].record;
      }
      assert forall k: nat :: StoresAt(ps, init, k, n) ==> RecordAt(ps, log, k) == RecordAt(ps, init, k);
    }
  }
}
